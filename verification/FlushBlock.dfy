/** _tr_flush_block in zlib/trees.c: the trees of a block, the exact size of each form, the
    choice, and the output. */
module FlushBlock {
  import opened Arith
  import opened BitStrings
  import opened BitStream
  import opened BitOutput
  import opened StringHash
  import opened Tokens
  import opened Canonical
  import opened SymbolCodes
  import opened TreeCodes
  import opened TreeLengths
  import opened TreeBuilding
  import opened Alphabet
  import opened Options
  import opened CopyCodes
  import opened BlockFields
  import opened BlockBody
  import opened RunLengths
  import opened TreeHeader
  import opened BlockForms

  const extra_blbits: seq<nat> := [0, 0, 0, 0, 0, 0, 0, 0, 0, 0, 0, 0, 0, 0, 0, 0, 2, 3, 7]

  function LDesc(): Desc { Desc(StaticL(), extra_lbits, 257, 286, 15) }
  function DDesc(): Desc { Desc(StaticD(), extra_dbits, 0, 30, 15) }
  function BlDesc(): Desc { Desc([], extra_blbits, 0, 19, 7) }

  lemma DescsOk()
    ensures LDesc().Ok() && DDesc().Ok() && BlDesc().Ok()
    ensures forall n :: 0 <= n < 3 ==> LDesc().Extra(n) == 0 && DDesc().Extra(n) == 0 && BlDesc().Extra(n) == 0
  {
    assert Pow2(7) == 128;
    Pow2Mono(7, 15);
    assert Pow2(9) == 512;
    Pow2Mono(9, 15);
  }

  /** A token that can be tallied: its distance is one that has a code. */
  ghost predicate Tallyable(tab: CodeTables, t: Token) { tab.Ok() && t.dist <= 0x8000 }

  ghost predicate AllTallyable(tab: CodeTables, ts: seq<Token>) {
    tab.Ok() && forall i :: 0 <= i < |ts| ==> ts[i].dist <= 0x8000
  }

  /** The literal or length symbol of a token. */
  function LSym(tab: CodeTables, t: Token): nat
    requires |tab.lengthCode| == 256
  {
    if t.dist == 0 then t.lc else 257 + tab.lengthCode[t.lc]
  }

  lemma SymsFit(tab: CodeTables, t: Token)
    requires Tallyable(tab, t)
    ensures |tab.lengthCode| == 256 && |tab.distCode| == 512 && LSym(tab, t) < 286 &&
            (t.dist > 0 ==> tab.DCode(t.dist - 1) < 30)
  {
    hide Pow2, extra_lbits, extra_dbits;
    assert tab.LengthOk(t.lc);
    if t.dist > 0 { assert tab.DistOk(t.dist - 1); }
  }

  function Bump(f: seq<nat>, i: nat): (r: seq<nat>)
    requires i < |f|
    ensures |r| == |f|
  {
    f[i := f[i] + 1]
  }

  /** The Freq fields of dyn_ltree behind the tokens ts: init_block has set END_BLOCK to 1. */
  ghost function LFreq(tab: CodeTables, ts: seq<Token>): (f: seq<nat>)
    requires AllTallyable(tab, ts)
    ensures |f| == 286
  {
    if ts == [] then Zeros(286)[END_BLOCK := 1]
    else SymsFit(tab, ts[|ts| - 1]); Bump(LFreq(tab, ts[..|ts| - 1]), LSym(tab, ts[|ts| - 1]))
  }

  /** The Freq fields of dyn_dtree. */
  ghost function DFreq(tab: CodeTables, ts: seq<Token>): (f: seq<nat>)
    requires AllTallyable(tab, ts)
    ensures |f| == 30
  {
    if ts == [] then Zeros(30)
    else if ts[|ts| - 1].dist == 0 then DFreq(tab, ts[..|ts| - 1])
    else SymsFit(tab, ts[|ts| - 1]); Bump(DFreq(tab, ts[..|ts| - 1]), tab.DCode(ts[|ts| - 1].dist - 1))
  }

  /** _tr_tally: one more token. */
  method TrTally(lfreq0: seq<nat>, dfreq0: seq<nat>, t: Token, tab: CodeTables, ghost ts: seq<Token>)
    returns (lfreq: seq<nat>, dfreq: seq<nat>)
    requires AllTallyable(tab, ts) && Tallyable(tab, t) && lfreq0 == LFreq(tab, ts) && dfreq0 == DFreq(tab, ts)
    ensures AllTallyable(tab, ts + [t]) && lfreq == LFreq(tab, ts + [t]) && dfreq == DFreq(tab, ts + [t])
  {
    hide CodeTables.Ok;
    assert (ts + [t])[..|ts|] == ts;
    SymsFit(tab, t);
    lfreq, dfreq := lfreq0, dfreq0;
    if t.dist == 0 {
      lfreq := lfreq[t.lc := lfreq[t.lc] + 1];
    } else {
      var l, d := 257 + tab.lengthCode[t.lc], tab.DCode(t.dist - 1);
      lfreq := lfreq[l := lfreq[l] + 1];
      dfreq := dfreq[d := dfreq[d] + 1];
    }
  }

  lemma {:induction false} CostBump(f: seq<nat>, c: seq<nat>, i: nat)
    requires |f| == |c| && i < |f|
    ensures Cost(Bump(f, i), c) == Cost(f, c) + c[i]
    decreases |f|
  {
    var n := |f| - 1;
    var g := Bump(f, i);
    if i == n {
      assert g[..n] == f[..n];
      assert (f[n] + 1) * c[n] == f[n] * c[n] + c[n];
    } else {
      assert g[..n] == Bump(f[..n], i);
      CostBump(f[..n], c[..n], i);
    }
  }

  lemma {:induction false} CostNone(n: nat, c: seq<nat>)
    requires |c| == n
    ensures Cost(Zeros(n), c) == 0
  {
    if n > 0 {
      CostNone(n - 1, c[..n - 1]);
      assert Zeros(n)[..n - 1] == Zeros(n - 1);
    }
  }

  /** Lengths of all symbols and lengths of those up to the last in use agree where it matters. */
  ghost predicate Agrees(all: seq<nat>, b: seq<nat>) {
    forall i :: 0 <= i < |all| && i < |b| ==> all[i] == b[i]
  }

  /** The size of a token. */
  lemma TokenCost(tab: CodeTables, lb: seq<nat>, db: seq<nat>, t: Token, l: seq<nat>, d: seq<nat>)
    requires Encodable(tab, lb, db, t) && |l| == 286 && |d| == 30 && Agrees(l, lb) && Agrees(d, db)
    ensures LSym(tab, t) < 286 && (t.dist > 0 ==> tab.DCode(t.dist - 1) < 30)
    ensures |TokenBits(tab, lb, db, t)| == LDesc().Bits(l)[LSym(tab, t)] + if t.dist == 0 then 0
            else DDesc().Bits(d)[tab.DCode(t.dist - 1)]
  {
    hide Pow2, CodeBits, BitsOf;
    SymsFit(tab, t);
    if t.dist > 0 { LengthIs(tab, t.lc); DistanceIs(tab, t.dist - 1); }
  }

  /** The frequencies predict the size of the body exactly. */
  lemma {:induction false} BodyCost(tab: CodeTables, lb: seq<nat>, db: seq<nat>, ts: seq<Token>, l: seq<nat>,
                                    d: seq<nat>)
    requires AllTallyable(tab, ts) && AllEncodable(tab, lb, db, ts) && |l| == 286 && |d| == 30 && Agrees(l, lb) &&
             Agrees(d, db)
    requires |lb| > END_BLOCK
    ensures Cost(LFreq(tab, ts), LDesc().Bits(l)) + Cost(DFreq(tab, ts), DDesc().Bits(d)) ==
            |TokensBits(tab, lb, db, ts)| + lb[END_BLOCK]
    decreases |ts|
  {
    hide Cost, TokenBits, CodeTables.Ok, Encodable;
    var lc, dc := LDesc().Bits(l), DDesc().Bits(d);
    if ts == [] {
      CostNone(286, lc); CostNone(30, dc);
      CostBump(Zeros(286), lc, END_BLOCK);
      assert Zeros(286)[END_BLOCK := 1] == Bump(Zeros(286), END_BLOCK);
      EndCost(l);
    } else {
      var n := |ts| - 1;
      BodyCost(tab, lb, db, ts[..n], l, d);
      TokenCost(tab, lb, db, ts[n], l, d);
      SymsFit(tab, ts[n]);
      CostBump(LFreq(tab, ts[..n]), lc, LSym(tab, ts[n]));
      if ts[n].dist > 0 { CostBump(DFreq(tab, ts[..n]), dc, tab.DCode(ts[n].dist - 1)); }
    }
  }

  lemma EndCost(l: seq<nat>)
    requires |l| == 286
    ensures LDesc().Bits(l)[END_BLOCK] == l[END_BLOCK]
  {
  }

  ghost predicate ItemsOk(items: seq<Item>) {
    forall i :: 0 <= i < |items| ==> items[i].Ok()
  }

  /** The Freq fields of bl_tree behind more items. */
  ghost function TallyItems(f: seq<nat>, items: seq<Item>): (r: seq<nat>)
    requires |f| == 19 && ItemsOk(items)
    ensures |r| == 19
    decreases |items|
  {
    if items == [] then f else TallyItems(Bump(f, items[0].Symbol()), items[1..])
  }

  lemma {:induction false} TallyConcat(f: seq<nat>, a: seq<Item>, b: seq<Item>)
    requires |f| == 19 && ItemsOk(a) && ItemsOk(b)
    ensures ItemsOk(a + b) && TallyItems(f, a + b) == TallyItems(TallyItems(f, a), b)
    decreases |a|
  {
    hide Item.Ok;
    if a == [] {
      assert a + b == b;
    } else {
      assert (a + b)[1..] == a[1..] + b;
      SymbolFits(a[0]);
      TallyConcat(Bump(f, a[0].Symbol()), a[1..], b);
    }
  }

  lemma SymbolFits(it: Item)
    requires it.Ok()
    ensures it.Symbol() < 19
  {
  }

  lemma {:induction false} TallyLens(f: seq<nat>, n: nat, x: nat)
    requires |f| == 19 && x <= 15
    ensures ItemsOk(seq(n, _ => Len(x))) && TallyItems(f, seq(n, _ => Len(x))) == f[x := f[x] + n]
    decreases n
  {
    var items := seq(n, _ => Len(x));
    if n > 0 {
      assert items[1..] == seq(n - 1, _ => Len(x));
      TallyLens(Bump(f, x), n - 1, x);
    } else {
      assert f[x := f[x] + 0] == f;
    }
  }

  /** scan_tree, when a run ends. */
  method TallyRun(f0: seq<nat>, cur: nat, prev: int, count: nat, min: nat) returns (f: seq<nat>)
    requires |f0| == 19 && count >= 1 && cur <= 15 && ItemsOk(Emit(cur, prev, count, min))
    ensures f == TallyItems(f0, Emit(cur, prev, count, min))
  {
    f := f0;
    ghost var items := Emit(cur, prev, count, min);
    if count < min {
      TallyLens(f0, count, cur);
      f := f[cur := f[cur] + count];
    } else if cur != 0 {
      if cur != prev {
        assert items[1..] == [REP_3_6(count - 1)] && items[1..][1..] == [];
        f := f[cur := f[cur] + 1];
        assert TallyItems(f, items[1..]) == TallyItems(Bump(f, 16), []);
      } else {
        assert items[1..] == [];
      }
      f := f[16 := f[16] + 1];
    } else if count <= 10 {
      assert items[1..] == [];
      f := f[17 := f[17] + 1];
    } else {
      assert items[1..] == [];
      f := f[18 := f[18] + 1];
    }
  }

  /** scan_tree: the frequencies of the items that send_tree will send. */
  method ScanTree(f0: seq<nat>, lens: seq<nat>) returns (f: seq<nat>)
    requires |f0| == 19 && lens != [] && Lengths(lens)
    ensures ItemsOk(Items(lens)) && f == TallyItems(f0, Items(lens))
  {
    hide Emit, Item.Ok, TallyItems;
    ItemsUnroll([], lens);
    f := f0;
    var prev: int, next, count, max, min := -1, lens[0], 0, 7, 4;
    if next == 0 { max, min := 138, 3; }
    var n := 0;
    while n < |lens|
      invariant 0 <= n <= |lens| && next == Next(lens, n) && |f| == 19 && count >= 0 && max >= 0 && min >= 0
      invariant ItemsOk(ItemsFrom(lens, n, prev, count, max, min))
      invariant TallyItems(f, ItemsFrom(lens, n, prev, count, max, min)) == TallyItems(f0, Items(lens))
    {
      var cur := next;
      next := if n + 1 < |lens| then lens[n + 1] else GUARD;
      count := count + 1;
      if !(count < max && cur == next) {
        var max', min' := 7, 4;
        if next == 0 { max', min' := 138, 3; } else if cur == next { max', min' := 6, 3; }
        ghost var run, rest := Emit(cur, prev, count, min), ItemsFrom(lens, n + 1, cur, 0, max', min');
        PartsOk(run, rest);
        TallyConcat(f, run, rest);
        f := TallyRun(f, cur, prev, count, min);
        count, prev, max, min := 0, cur, max', min';
      }
      n := n + 1;
    }
    TallyNone(f);
  }

  lemma PartsOk(a: seq<Item>, b: seq<Item>)
    requires ItemsOk(a + b)
    ensures ItemsOk(a) && ItemsOk(b)
  {
    hide Item.Ok;
    forall i | 0 <= i < |a| ensures a[i].Ok() { assert (a + b)[i] == a[i]; }
    forall i | 0 <= i < |b| ensures b[i].Ok() { assert (a + b)[|a| + i] == b[i]; }
  }

  lemma TallyNone(f: seq<nat>)
    requires |f| == 19
    ensures TallyItems(f, []) == f
  {
  }

  /** The frequencies predict the size of the items exactly. */
  lemma {:induction false} ItemsCost(f: seq<nat>, bl: seq<nat>, items: seq<Item>)
    requires |f| == 19 && AllSendable(bl, items) && BitLens(bl) && ItemsOk(items)
    ensures Cost(TallyItems(f, items), BlDesc().Bits(bl)) == Cost(f, BlDesc().Bits(bl)) + |ItemsBits(bl, items)|
    decreases |items|
  {
    hide Cost, Item.Ok, Kraft, Pow2, ItemBits, Desc.Bits;
    if items != [] {
      SymbolFits(items[0]);
      ItemCost(bl, items[0]);
      CostBump(f, BlDesc().Bits(bl), items[0].Symbol());
      ItemsCost(Bump(f, items[0].Symbol()), bl, items[1..]);
    }
  }

  lemma ItemCost(bl: seq<nat>, it: Item)
    requires Sendable(bl, it)
    ensures |ItemBits(bl, it)| == BlDesc().Bits(bl)[it.Symbol()]
  {
    hide CodeBits, BitsOf, Kraft, Pow2;
  }

  lemma {:induction false} TalliedAll(f: seq<nat>, items: seq<Item>, i: nat)
    requires |f| == 19 && ItemsOk(items)
    ensures forall k :: 0 <= k < 19 ==> f[k] <= TallyItems(f, items)[k]
    ensures i < |items| ==> items[i].Symbol() < 19 && TallyItems(f, items)[items[i].Symbol()] > 0
    decreases |items|
  {
    hide Item.Ok;
    if items != [] {
      SymbolFits(items[0]);
      TalliedAll(Bump(f, items[0].Symbol()), items[1..], if i > 0 then i - 1 else 0);
    }
  }

  /** A token's symbols occur. */
  lemma {:induction false} SymsOccur(tab: CodeTables, ts: seq<Token>, i: nat)
    requires AllTallyable(tab, ts)
    ensures LFreq(tab, ts)[END_BLOCK] > 0
    ensures i < |ts| ==>
              |tab.lengthCode| == 256 && |tab.distCode| == 512 && LSym(tab, ts[i]) < 286 &&
              LFreq(tab, ts)[LSym(tab, ts[i])] > 0
    ensures i < |ts| && ts[i].dist > 0 ==>
              tab.DCode(ts[i].dist - 1) < 30 && DFreq(tab, ts)[tab.DCode(ts[i].dist - 1)] > 0
    decreases |ts|
  {
    hide CodeTables.Ok;
    if ts != [] {
      var n := |ts| - 1;
      SymsFit(tab, ts[n]);
      SymsOccur(tab, ts[..n], i);
    }
  }

  /** The tree nodes before build_tree, with the frequencies set. */
  function FreqNodes(f: seq<nat>, size: nat): (tree: seq<Node>)
    requires |f| <= size
    ensures |tree| == size && FreqsOf(tree, |f|) == f
  {
    seq(size, i requires 0 <= i < size => Node(if i < |f| then f[i] else 0, 0))
  }

  /** Lengths of a tree as far as its last code, and all of them. */
  lemma TreeCodesAll(tree: seq<Node>, desc: Desc, maxCode: nat)
    requires TreeBuilt(tree, desc, maxCode)
    ensures TreeFor(tree, LensOf(tree, maxCode + 1)) && TreeFor(tree, LensOf(tree, desc.elems))
    ensures Full(LensOf(tree, desc.elems)) && Full(LensOf(tree, maxCode + 1))
    ensures Agrees(LensOf(tree, desc.elems), LensOf(tree, maxCode + 1))
  {
    hide CountOf, Kraft, Pow2, Rev;
    ShorterList(tree, desc.elems, maxCode + 1);
    var b, c := LensOf(tree, desc.elems), LensOf(tree, maxCode + 1);
    forall n | 0 <= n < |b| && b[n] > 0 ensures n < |c| && CodeOf(b, n) == CodeOf(c, n) {
      assert b[..n] == c[..n];
      FirstSame(CountsOf(b), CountsOf(c), b[n]);
    }
  }

  /** With a code for every symbol that occurs, the tokens can be written. */
  lemma DynamicEncodable(tab: CodeTables, ts: seq<Token>, ltree: seq<Node>, lmax: nat, dtree: seq<Node>, dmax: nat,
                         lf: seq<nat>, df: seq<nat>)
    requires AllTallyable(tab, ts) && TreeBuilt(ltree, LDesc(), lmax) && TreeBuilt(dtree, DDesc(), dmax)
    requires CodesFor(ltree, LFreq(tab, ts), lf) && CodesFor(dtree, DFreq(tab, ts), df)
    ensures AllEncodable(tab, LensOf(ltree, lmax + 1), LensOf(dtree, dmax + 1), ts)
    ensures 257 <= lmax + 1 <= 286 && 1 <= dmax + 1 <= 30 && LensOf(ltree, lmax + 1)[END_BLOCK] > 0
  {
    hide CodeTables.Ok, TreeBuilt, CodesFor, LFreq, DFreq, Encodable;
    SymsOccur(tab, ts, 0);
    HasCode(ltree, LDesc(), lmax, LFreq(tab, ts), lf, END_BLOCK);
    TreeSizes(ltree, LDesc(), lmax); TreeSizes(dtree, DDesc(), dmax);
    forall i | 0 <= i < |ts| ensures Encodable(tab, LensOf(ltree, lmax + 1), LensOf(dtree, dmax + 1), ts[i]) {
      SymsOccur(tab, ts, i);
      HasCode(ltree, LDesc(), lmax, LFreq(tab, ts), lf, LSym(tab, ts[i]));
      if ts[i].dist > 0 { HasCode(dtree, DDesc(), dmax, DFreq(tab, ts), df, tab.DCode(ts[i].dist - 1)); }
      CanEncode(tab, LensOf(ltree, lmax + 1), LensOf(dtree, dmax + 1), ts[i]);
    }
  }

  lemma TreeSizes(tree: seq<Node>, desc: Desc, maxCode: nat)
    requires TreeBuilt(tree, desc, maxCode)
    ensures maxCode < desc.elems <= |tree| && Lengths(LensOf(tree, maxCode + 1))
    ensures LensOf(tree, maxCode + 1)[maxCode] > 0
  {
  }

  lemma CanEncode(tab: CodeTables, lb: seq<nat>, db: seq<nat>, t: Token)
    requires Tallyable(tab, t) && Lengths(lb) && Lengths(db) && |tab.lengthCode| == 256 && |tab.distCode| == 512
    requires LSym(tab, t) < |lb| && lb[LSym(tab, t)] > 0
    requires t.dist > 0 ==> tab.DCode(t.dist - 1) < |db| && db[tab.DCode(t.dist - 1)] > 0
    ensures Encodable(tab, lb, db, t)
  {
    hide CodeTables.Ok;
  }

  lemma HasCode(tree: seq<Node>, desc: Desc, maxCode: nat, f: seq<nat>, forced: seq<nat>, sym: nat)
    requires TreeBuilt(tree, desc, maxCode) && |f| == desc.elems && CodesFor(tree, f, forced) && sym < |f| && f[sym] > 0
    ensures sym <= maxCode < desc.elems <= |tree| && tree[sym].dl > 0 && LensOf(tree, maxCode + 1)[sym] > 0
  {
    hide Kraft, Pow2, Coded;
  }

  lemma StaticEncodable(tab: CodeTables, ts: seq<Token>)
    requires AllTallyable(tab, ts)
    ensures FormOk(tab, Static, ts)
  {
    hide CodeTables.Ok;
    forall i | 0 <= i < |ts| ensures Encodable(tab, StaticL(), StaticD(), ts[i]) {
      SymsFit(tab, ts[i]);
    }
  }

  /** The items of both trees have codes. */
  lemma BitsSendable(bltree: seq<Node>, blmax: nat, ll: seq<nat>, dl: seq<nat>, forced: seq<nat>)
    requires ItemsOk(Items(ll)) && ItemsOk(Items(dl)) && TreeBuilt(bltree, BlDesc(), blmax)
    requires CodesFor(bltree, TallyItems(TallyItems(Zeros(19), Items(ll)), Items(dl)), forced)
    ensures BitLens(LensOf(bltree, 19)) && AllSendable(LensOf(bltree, 19), Items(ll)) &&
            AllSendable(LensOf(bltree, 19), Items(dl))
  {
    hide Items, Kraft, Pow2, Coded, Item.Ok, TallyItems;
    TreeCodesAll(bltree, BlDesc(), blmax);
    var bl, f := LensOf(bltree, 19), TallyItems(Zeros(19), Items(ll));
    forall i | 0 <= i < |Items(ll)| ensures Sendable(bl, Items(ll)[i]) {
      TalliedAll(Zeros(19), Items(ll), i);
      TalliedAll(f, Items(dl), 0);
    }
    forall i | 0 <= i < |Items(dl)| ensures Sendable(bl, Items(dl)[i]) { TalliedAll(f, Items(dl), i); }
  }

  /** The body of a dynamic or static block takes as many bits as build_tree predicts. */
  lemma PredictBody(tab: CodeTables, ts: seq<Token>, ltree: seq<Node>, lmax: nat, dtree: seq<Node>, dmax: nat,
                    lopt: int, dopt: int, lstat: int, dstat: int)
    requires AllTallyable(tab, ts) && TreeBuilt(ltree, LDesc(), lmax) && TreeBuilt(dtree, DDesc(), dmax)
    requires AllEncodable(tab, LensOf(ltree, lmax + 1), LensOf(dtree, dmax + 1), ts) && lmax >= END_BLOCK
    requires lopt == Cost(LFreq(tab, ts), LDesc().Bits(LensOf(ltree, 286))) &&
             dopt == Cost(DFreq(tab, ts), DDesc().Bits(LensOf(dtree, 30)))
    requires lstat == Cost(LFreq(tab, ts), LDesc().Bits(StaticL()[..286])) &&
             dstat == Cost(DFreq(tab, ts), DDesc().Bits(StaticD()[..30]))
    ensures var ll, dl := LensOf(ltree, lmax + 1), LensOf(dtree, dmax + 1);
            lopt + dopt == |TokensBits(tab, ll, dl, ts)| + ll[END_BLOCK]
    ensures FormOk(tab, Static, ts) && lstat + dstat + 3 == |FormBits(tab, Static, 0, ts, false)|
  {
    hide Cost, TokensBits, CodeTables.Ok, AllEncodable, LFreq, DFreq, Desc.Bits, Coded, Kraft, Pow2, CodeBits, TypeBits;
    BodyCost(tab, LensOf(ltree, lmax + 1), LensOf(dtree, dmax + 1), ts, LensOf(ltree, 286), LensOf(dtree, 30));
    StaticEncodable(tab, ts);
    BodyCost(tab, StaticL(), StaticD(), ts, StaticL()[..286], StaticD()[..30]);
  }

  /** build_tree for literals and distances. */
  method BuildBoth(lfreq: seq<nat>, dfreq: seq<nat>, tab: CodeTables, ghost ts: seq<Token>)
    returns (ltree: seq<Node>, lmax: nat, dtree: seq<Node>, dmax: nat, opt: int, stat: int)
    requires AllTallyable(tab, ts) && lfreq == LFreq(tab, ts) && dfreq == DFreq(tab, ts)
    ensures TreeBuilt(ltree, LDesc(), lmax) && TreeBuilt(dtree, DDesc(), dmax)
    ensures AllEncodable(tab, LensOf(ltree, lmax + 1), LensOf(dtree, dmax + 1), ts)
    ensures 257 <= lmax + 1 <= 286 && 1 <= dmax + 1 <= 30 && LensOf(ltree, lmax + 1)[END_BLOCK] > 0
    ensures opt == |TokensBits(tab, LensOf(ltree, lmax + 1), LensOf(dtree, dmax + 1), ts)| +
            LensOf(ltree, lmax + 1)[END_BLOCK]
    ensures FormOk(tab, Static, ts) && stat + 3 == |FormBits(tab, Static, 0, ts, false)|
  {
    hide Cost, TokensBits, CodeTables.Ok, AllEncodable, LFreq, DFreq, Desc.Bits, Desc.Ok, TreeBuilt, CodesFor,
         FreqNodes, FreqsOf, FormBits, FormOk, MergeTree, Steep, CheapestIfShallow;
    DescsOk();
    var depth := seq(573, _ => 0);
    ghost var lforced, dforced, lt, dt, lw, dw;
    var lopt, lstat, dopt, dstat;
    ltree, lmax, lopt, lstat, lforced, lt, lw := BuildTree(FreqNodes(lfreq, 573), depth, LDesc());
    dtree, dmax, dopt, dstat, dforced, dt, dw := BuildTree(FreqNodes(dfreq, 61), depth, DDesc());
    TreeSizes(ltree, LDesc(), lmax); TreeSizes(dtree, DDesc(), dmax);
    DynamicEncodable(tab, ts, ltree, lmax, dtree, dmax, lforced, dforced);
    PredictBody(tab, ts, ltree, lmax, dtree, dmax, lopt, dopt, lstat, dstat);
    opt, stat := lopt + dopt, lstat + dstat;
  }

  /** build_bl_tree: the tree for the lengths, and the size of the header it gives. */
  method BuildBlTree(ll: seq<nat>, dl: seq<nat>) returns (bltree: seq<Node>, blindex: nat, opt: int)
    requires 257 <= |ll| <= 286 && 1 <= |dl| <= 30 && Lengths(ll) && Lengths(dl) && Full(ll) && Full(dl)
    requires ll[|ll| - 1] > 0 && dl[|dl| - 1] > 0
    ensures 19 <= |bltree| && TreeFor(bltree, LensOf(bltree, 19)) && Header(ll, dl, LensOf(bltree, 19), blindex + 1)
    ensures opt == |HeaderBits(ll, dl, LensOf(bltree, 19), blindex + 1)|
  {
    hide Cost, Items, TallyItems, Desc.Bits, Desc.Ok, TreeBuilt, CodesFor, FreqNodes, FreqsOf, ItemsOk, bl_order, Kraft,
         Pow2, AllSendable, Coded, MergeTree, Steep, CheapestIfShallow;
    DescsOk();
    var f := ScanTree(Zeros(19), ll);
    f := ScanTree(f, dl);
    ghost var forced, t, w;
    var blmax, stat;
    var depth := seq(573, _ => 0);
    bltree, blmax, opt, stat, forced, t, w := BuildTree(FreqNodes(f, 39), depth, BlDesc());
    TreeSizes(bltree, BlDesc(), blmax);
    BitsSendable(bltree, blmax, ll, dl, forced);
    TreeCodesAll(bltree, BlDesc(), blmax);
    var bl := LensOf(bltree, 19);
    blindex := LastBitCode(bl);
    PredictHeader(f, ll, dl, bl, blindex, opt);
    opt := opt + 3 * (blindex + 1) + 5 + 5 + 4;
  }

  lemma PredictHeader(f: seq<nat>, ll: seq<nat>, dl: seq<nat>, bl: seq<nat>, blindex: nat, opt: int)
    requires Header(ll, dl, bl, blindex + 1) && ItemsOk(Items(ll)) && ItemsOk(Items(dl))
    requires f == TallyItems(TallyItems(Zeros(19), Items(ll)), Items(dl)) && opt == Cost(f, BlDesc().Bits(bl))
    ensures opt + 3 * (blindex + 1) + 14 == |HeaderBits(ll, dl, bl, blindex + 1)|
  {
    hide Cost, Items, TallyItems, Desc.Bits, ItemsBits, OrderBits, CountBits, AllSendable, ItemsOk, Kraft, Pow2,
         bl_order;
    CostNone(19, BlDesc().Bits(bl));
    ItemsCost(Zeros(19), bl, Items(ll));
    ItemsCost(TallyItems(Zeros(19), Items(ll)), bl, Items(dl));
  }

  /** put_byte for each byte of buf. */
  method PutBytes(w: BitWriter, buf: seq<Byte>)
    requires w.Valid() && w.biValid == 0 && w.biBuf == 0
    modifies w`pendingBuf
    ensures w.Valid() && BytesBits(w.Bytes()) == BytesBits(old(w.Bytes())) + BytesBits(buf)
  {
    hide BitsOf, BytesBits, Pow2;
    ghost var head := w.Bytes();
    var i := 0;
    assert buf[..0] == [];
    NoBytes();
    while i < |buf|
      invariant 0 <= i <= |buf| && w.Valid()
      invariant BytesBits(w.Bytes()) == BytesBits(head) + BytesBits(buf[..i])
    {
      BytesAppend(buf[..i], buf[i]);
      assert buf[..i] + [buf[i]] == buf[..i + 1];
      Assoc(BytesBits(head), BytesBits(buf[..i]), BitsOf(buf[i], 8));
      w.PutByte(buf[i]);
      i := i + 1;
    }
    assert buf[..|buf|] == buf;
  }

  /** copy_block with a header: aligned on a byte, the length and its complement, the bytes. */
  method CopyBlock(w: BitWriter, buf: seq<Byte>)
    requires w.Valid() && |buf| < 0x10000
    modifies w`pendingBuf, w`biBuf, w`biValid
    ensures w.Valid() && w.Sent() == old(w.Sent()) + StoredBits(|old(w.Sent())|, buf) && w.biValid == 0
  {
    hide BitsOf, BytesBits, Pow2, ByteBoundary;
    ghost var sent := w.Sent();
    w.BiWindup();
    ghost var pad :| 0 <= pad < 8 && w.Sent() == sent + BitsOf(0, pad);
    PadIs(|sent|, pad, |w.Bytes()|);
    NoBits(0);
    assert w.biBuf == 0 by { Pow2Values(); }
    w.PutShort(|buf|);
    w.PutShort(0xffff - |buf|);
    PutBytes(w, buf);
    FourParts(sent, BitsOf(0, pad), BitsOf(|buf|, 16), BitsOf(0xffff - |buf|, 16), BytesBits(buf));
  }

  lemma NoBytes()
    ensures BytesBits([]) == []
  {
  }

  /** The padding goes to the next byte boundary. */
  lemma PadIs(n: nat, pad: nat, bytes: nat)
    requires pad < 8
    ensures n + pad == 8 * bytes ==> ByteBoundary(n) - n == pad
  {
  }

  /** The three bits at the start of a block. */
  method SendType(w: BitWriter, kind: nat, eof: bool)
    requires w.Valid() && kind <= 2
    modifies w`pendingBuf, w`biBuf, w`biValid
    ensures w.Valid() && w.Sent() == old(w.Sent()) + TypeBits(kind, eof)
  {
    hide BitWriter.Sent, BitWriter.Valid, Pow2;
    SmallPowers();
    w.SendBits(2 * kind + (if eof then 1 else 0), 3);
  }

  method SendStatic(w: BitWriter, tab: CodeTables, tokens: seq<Token>, eof: bool, sl: seq<Node>, sd: seq<Node>)
    requires w.Valid() && FormOk(tab, Static, tokens) && TreeFor(sl, StaticL()) && TreeFor(sd, StaticD())
    modifies w`pendingBuf, w`biBuf, w`biValid
    ensures w.Valid() && w.Sent() == old(w.Sent()) + FormBits(tab, Static, |old(w.Sent())|, tokens, eof)
  {
    hide BitWriter.Sent, BitWriter.Valid, TypeBits, TokensBits, CodeBits, AllEncodable, Coded;
    ghost var sent := w.Sent();
    SendType(w, 1, eof);
    CompressBlock(w, tokens, sl, sd, tab, StaticL(), StaticD());
    Assoc(sent, TypeBits(1, eof), TokensBits(tab, StaticL(), StaticD(), tokens) + CodeBits(StaticL(), END_BLOCK));
  }

  method SendDynamic(w: BitWriter, tab: CodeTables, tokens: seq<Token>, eof: bool, ltree: seq<Node>, lmax: nat,
                     dtree: seq<Node>, dmax: nat,
                     bltree: seq<Node>, blindex: nat, ghost form: Form)
    requires w.Valid() && lmax < |ltree| && dmax < |dtree| && 19 <= |bltree|
    requires form == Dynamic(LensOf(ltree, lmax + 1), LensOf(dtree, dmax + 1), LensOf(bltree, 19), blindex + 1) &&
             FormOk(tab, form, tokens)
    requires TreeFor(ltree, form.ll) && TreeFor(dtree, form.dl) && TreeFor(bltree, form.bl)
    modifies w`pendingBuf, w`biBuf, w`biValid
    ensures w.Valid() && w.Sent() == old(w.Sent()) + FormBits(tab, form, |old(w.Sent())|, tokens, eof)
  {
    hide BitWriter.Sent, BitWriter.Valid, TypeBits, TokensBits, CodeBits, AllEncodable, Coded, HeaderBits, Header,
         Kraft, Pow2;
    ghost var sent := w.Sent();
    SendType(w, 2, eof);
    SendAllTrees(w, LensOf(ltree, lmax + 1), LensOf(dtree, dmax + 1), bltree, blindex + 1, form.bl);
    CompressBlock(w, tokens, ltree, dtree, tab, form.ll, form.dl);
    ghost var header, body :=
        HeaderBits(form.ll, form.dl, form.bl, form.blcodes),
        TokensBits(tab, form.ll, form.dl, tokens) + CodeBits(form.ll, END_BLOCK);
    assert sent + TypeBits(2, eof) + header + body == sent + (TypeBits(2, eof) + (header + body));
  }

  /** The trees of a block and the sizes of its two coded forms. */
  method BuildAll(lfreq: seq<nat>, dfreq: seq<nat>, tab: CodeTables, ghost ts: seq<Token>)
    returns (ltree: seq<Node>, lmax: nat, dtree: seq<Node>, dmax: nat, bltree: seq<Node>, blindex: nat, opt: int,
            stat: int, ghost form: Form)
    requires AllTallyable(tab, ts) && lfreq == LFreq(tab, ts) && dfreq == DFreq(tab, ts)
    ensures END_BLOCK <= lmax < |ltree| && dmax < |dtree| && 19 <= |bltree|
    ensures form == Dynamic(LensOf(ltree, lmax + 1), LensOf(dtree, dmax + 1), LensOf(bltree, 19), blindex + 1) &&
            FormOk(tab, form, ts)
    ensures TreeFor(ltree, form.ll) && TreeFor(dtree, form.dl) && TreeFor(bltree, form.bl)
    ensures FormOk(tab, Static, ts)
    ensures opt + 3 == |FormBits(tab, form, 0, ts, false)| && stat + 3 == |FormBits(tab, Static, 0, ts, false)|
  {
    hide Cost, TokensBits, CodeTables.Ok, AllEncodable, LFreq, DFreq, TreeBuilt, HeaderBits, Header, CodeBits, TypeBits,
         Kraft, Coded;
    var opt1;
    ltree, lmax, dtree, dmax, opt, stat := BuildBoth(lfreq, dfreq, tab, ts);
    TreeSizes(ltree, LDesc(), lmax); TreeSizes(dtree, DDesc(), dmax);
    TreeCodesAll(ltree, LDesc(), lmax); TreeCodesAll(dtree, DDesc(), dmax);
    bltree, blindex, opt1 := BuildBlTree(LensOf(ltree, lmax + 1), LensOf(dtree, dmax + 1));
    form := Dynamic(LensOf(ltree, lmax + 1), LensOf(dtree, dmax + 1), LensOf(bltree, 19), blindex + 1);
    opt := opt + opt1;
  }

  lemma SizeIsFixed(tab: CodeTables, form: Form, ts: seq<Token>, pos: nat, last: bool)
    requires FormOk(tab, form, ts) && !form.Stored?
    ensures |FormBits(tab, form, pos, ts, last)| == |FormBits(tab, form, 0, ts, false)|
  {
    hide TokensBits, CodeBits, TypeBits, HeaderBits, AllEncodable, Header, Kraft, Pow2;
  }

  /** last_eob_len: the bits of the last code of a block; for a stored block enough to look ahead. */
  ghost function EobLen(tab: CodeTables, form: Form, ts: seq<Token>): nat
    requires FormOk(tab, form, ts)
  {
    match form
    case Stored(_) => 8
    case Static => StaticLength(END_BLOCK)
    case Dynamic(ll, _, _, _) => ll[END_BLOCK]
  }

  /** _tr_flush_block: the block in the form that is predicted to be the shortest. What is
      predicted for a coded form is what it takes. */
  method TrFlushBlock(w: BitWriter, tab: CodeTables, tokens: seq<Token>, lfreq: seq<nat>, dfreq: seq<nat>,
                      buf: Option<seq<Byte>>, storedLen: nat,
                      eof: bool, level: nat, sl: seq<Node>, sd: seq<Node>)
    returns (opt: int, stat: int, eobLen: nat, ghost form: Form, ghost pad: nat)
    requires w.Valid() && AllTallyable(tab, tokens) && lfreq == LFreq(tab, tokens) && dfreq == DFreq(tab, tokens)
    requires (buf.Some? ==> |buf.value| == storedLen < 0x10000) && (level == 0 ==> buf.Some?)
    requires TreeFor(sl, StaticL()) && TreeFor(sd, StaticD())
    modifies w`pendingBuf, w`biBuf, w`biValid
    ensures w.Valid() && FormOk(tab, form, tokens) && (form.Stored? ==> buf == Some(form.buf)) && pad < 8 &&
            (!eof ==> pad == 0)
    ensures w.Sent() == old(w.Sent()) + FormBits(tab, form, |old(w.Sent())|, tokens, eof) + BitsOf(0, pad)
    ensures form.Static? ==> |FormBits(tab, form, |old(w.Sent())|, tokens, eof)| == stat + 3
    ensures form.Dynamic? ==> |FormBits(tab, form, |old(w.Sent())|, tokens, eof)| == opt + 3
    ensures eof ==> w.biValid == 0
    ensures eobLen == EobLen(tab, form, tokens)
    ensures level == 0 ==> form.Stored?
    ensures level > 0 ==> (form.Stored? <==> buf.Some? && storedLen + 4 <= Min((opt + 3 + 7) / 8, (stat + 3 + 7) / 8))
    ensures level > 0 && !form.Stored? ==> (form.Static? <==> (stat + 3 + 7) / 8 <= (opt + 3 + 7) / 8)
  {
    hide BitWriter.Sent, BitWriter.Valid, TypeBits, StoredBits, FormBits, FormOk, AllTallyable, LFreq, DFreq, TreeFor,
         BitsOf;
    ghost var sent := w.Sent();
    opt, stat := 0, 0;
    eobLen := 8;
    if level > 0 {
      var ltree, lmax, dtree, dmax, bltree, blindex;
      ltree, lmax, dtree, dmax, bltree, blindex, opt, stat, form := BuildAll(lfreq, dfreq, tab, tokens);
      var optLenb, staticLenb := (opt + 3 + 7) / 8, (stat + 3 + 7) / 8;
      if staticLenb <= optLenb { optLenb := staticLenb; }
      if storedLen + 4 <= optLenb && buf.Some? {
        form := SendStored(w, tab, buf.value, tokens, eof);
      } else if staticLenb == optLenb {
        form := Static;
        SizeIsFixed(tab, form, tokens, |sent|, eof);
        SendStatic(w, tab, tokens, eof, sl, sd);
        eobLen := 7;
      } else {
        SizeIsFixed(tab, form, tokens, |sent|, eof);
        SendDynamic(w, tab, tokens, eof, ltree, lmax, dtree, dmax, bltree, blindex, form);
        eobLen := ltree[END_BLOCK].dl;
      }
    } else {
      form := SendStored(w, tab, buf.value, tokens, eof);
    }
    pad := 0;
    NoBits(0);
    ghost var now := w.Sent();
    assert now + [] == now;
    if eof {
      w.BiWindup();
      pad :| 0 <= pad < 8 && w.Sent() == now + BitsOf(0, pad);
    }
  }

  /** _tr_stored_block. */
  method SendStored(w: BitWriter, tab: CodeTables, buf: seq<Byte>, ghost tokens: seq<Token>, eof: bool)
    returns (ghost form: Form)
    requires w.Valid() && |buf| < 0x10000
    modifies w`pendingBuf, w`biBuf, w`biValid
    ensures w.Valid() && form == Stored(buf) && FormOk(tab, form, tokens) && w.biValid == 0
    ensures w.Sent() == old(w.Sent()) + FormBits(tab, form, |old(w.Sent())|, tokens, eof)
  {
    hide BitWriter.Sent, BitWriter.Valid, TypeBits, StoredBits;
    ghost var sent := w.Sent();
    form := Stored(buf);
    SendType(w, 0, eof);
    CopyBlock(w, buf);
    Assoc(sent, TypeBits(0, eof), StoredBits(|sent| + 3, buf));
  }
}
