/** gen_bitlen in zlib/trees.c: code lengths from a Huffman tree, limited to a greatest length,
    and the size of the block they give. */
module TreeLengths {
  import opened Arith
  import opened Canonical
  import opened SymbolCodes
  import opened TreeCodes
  import opened BitLengths

  /** static_tree_desc: the lengths of the static tree or none, extra bits from symbol base on,
      the number of symbols and the greatest length. */
  datatype Desc = Desc(stree: seq<nat>, extra: seq<nat>, base: nat, elems: nat, maxLength: nat) {

    ghost predicate Ok() {
      && (stree == [] || |stree| >= elems) && base + |extra| >= elems
      && 1 <= maxLength <= MAX_BITS && elems <= Pow2(maxLength)
    }

    function Extra(n: nat): nat
      requires n < base + |extra|
    {
      if n >= base then extra[n - base] else 0
    }

    /** What every symbol costs with the lengths len. */
    function Bits(len: seq<nat>): (c: seq<nat>)
      requires |len| <= base + |extra|
      ensures |c| == |len|
    {
      seq(|len|, n requires 0 <= n < |len| => len[n] + Extra(n))
    }
  }

  /** The cost of symbols that occur f[n] times at c[n] bits. */
  function Cost(f: seq<nat>, c: seq<nat>): nat
    requires |f| == |c|
  {
    if f == [] then 0 else Cost(f[..|f| - 1], c[..|f| - 1]) + f[|f| - 1] * c[|f| - 1]
  }

  lemma {:induction false} CostUpdate(f: seq<nat>, c: seq<nat>, i: nat, v: nat)
    requires |f| == |c| && i < |c|
    ensures Cost(f, c[i := v]) + f[i] * c[i] == Cost(f, c) + f[i] * v
    decreases |f|
  {
    var n := |f| - 1;
    if i == n {
      assert c[i := v][..n] == c[..n];
    } else {
      assert c[i := v][..n] == c[..n][i := v];
      CostUpdate(f[..n], c[..n], i, v);
    }
  }

  lemma {:induction false} CostAgrees(f: seq<nat>, c: seq<nat>, c': seq<nat>)
    requires |f| == |c| == |c'| && forall i :: 0 <= i < |f| ==> f[i] == 0 || c[i] == c'[i]
    ensures Cost(f, c) == Cost(f, c')
  {
    if f != [] {
      var n := |f| - 1;
      CostAgrees(f[..n], c[..n], c'[..n]);
    }
  }

  lemma {:induction false} CostZero(f: seq<nat>, c: seq<nat>)
    requires |f| == |c| && forall i :: 0 <= i < |c| ==> c[i] == 0
    ensures Cost(f, c) == 0
  {
    if f != [] { CostZero(f[..|f| - 1], c[..|f| - 1]); }
  }

  /** How many of the nodes are leaves. */
  function LeavesIn(s: seq<nat>, elems: nat): nat {
    if s == [] then 0 else LeavesIn(s[..|s| - 1], elems) + (if s[|s| - 1] < elems then 1 else 0)
  }

  lemma {:induction false} CountUpdate(b: seq<nat>, i: nat, v: nat, k: nat)
    requires i < |b|
    ensures CountOf(b[i := v], k) + (if b[i] == k then 1 else 0) == CountOf(b, k) + if v == k then 1 else 0
    decreases |b|
  {
    var n := |b| - 1;
    if i == n {
      assert b[i := v][..n] == b[..n];
    } else {
      assert b[i := v][..n] == b[..n][i := v];
      CountUpdate(b[..n], i, v, k);
    }
  }

  /** The do loop behind the first pass: takes codes from the greatest length until the codes
      fit, by moving one shorter code down and one long code up beside it. */
  method Repair(bl0: Counts, max: nat, overflow0: nat) returns (bl: Counts)
    requires 1 <= max <= MAX_BITS && overflow0 > 0 && overflow0 % 2 == 0
    requires End(bl0, max) == Pow2(max) + overflow0 / 2 && First(bl0, max) < Pow2(max)
    requires CodesFrom(bl0, 1, max) <= Pow2(max)
    ensures End(bl, max) == Pow2(max) && bl[0] == bl0[0]
    ensures CodesFrom(bl, 1, max) == CodesFrom(bl0, 1, max)
    ensures forall k :: max < k <= MAX_BITS ==> bl[k] == bl0[k]
  {
    hide Pow2, First, CodesFrom;
    bl := bl0;
    var overflow: int := overflow0;
    while overflow > 0
      invariant overflow >= 0 && overflow % 2 == 0 && bl[0] == bl0[0]
      invariant End(bl, max) == Pow2(max) + overflow / 2 && First(bl, max) < Pow2(max)
      invariant CodesFrom(bl, 1, max) == CodesFrom(bl0, 1, max)
      invariant forall k :: max < k <= MAX_BITS ==> bl[k] == bl0[k]
    {
      var bits := max - 1;
      SomeShorter(bl, max);
      while bl[bits] == 0
        invariant 1 <= bits < max
        invariant exists k :: 1 <= k <= bits && bl[k] > 0
        decreases bits
      {
        bits := bits - 1;
      }
      MoveDown(bl, bits, max);
      bl := bl[bits := bl[bits] - 1];
      bl := bl[bits + 1 := bl[bits + 1] + 2];
      bl := bl[max := bl[max] - 1];
      overflow := overflow - 2;
    }
  }

  /** If the codes do not fit, not all of them have the greatest length. */
  lemma SomeShorter(bl: Counts, max: nat)
    requires 1 <= max <= MAX_BITS && End(bl, max) > Pow2(max) && CodesFrom(bl, 1, max) <= Pow2(max)
    ensures max > 1 && exists k :: 1 <= k <= max - 1 && bl[k] > 0
  {
    hide Pow2, First;
    if forall k :: 1 <= k < max ==> bl[k] == 0 {
      FirstIsZero(bl, max);
      OnlyLast(bl, 1, max);
    }
  }

  lemma {:induction false} OnlyLast(bl: Counts, j: nat, max: nat)
    requires 1 <= j <= max <= MAX_BITS && forall k :: j <= k < max ==> bl[k] == 0
    ensures CodesFrom(bl, j, max) == bl[max]
    decreases max - j
  {
    if j < max {
      OnlyLast(bl, j + 1, max);
    } else {
      assert CodesFrom(bl, max + 1, max) == 0;
    }
  }

  /** One round of the repair. */
  lemma MoveDown(bl: Counts, b: nat, max: nat)
    requires 1 <= b < max <= MAX_BITS && bl[b] > 0
    requires End(bl, max) > Pow2(max) > First(bl, max)
    ensures var bl1: Counts := bl[b := bl[b] - 1];
            var bl2: Counts := bl1[b + 1 := bl1[b + 1] + 2];
            && bl2[max] > 0
            && var bl': Counts := bl2[max := bl2[max] - 1];
               && End(bl', max) == End(bl, max) - 1 && First(bl', max) <= First(bl, max)
               && CodesFrom(bl', 1, max) == CodesFrom(bl, 1, max)
  {
    hide Pow2, First, CodesFrom, Half;
    var bl1: Counts := bl[b := bl[b] - 1];
    var half: Counts := bl1[b + 1 := bl1[b + 1] + 1];
    var bl2: Counts := bl1[b + 1 := bl1[b + 1] + 2];
    var bl': Counts := bl2[max := bl2[max] - 1];
    assert bl1[b := bl1[b] + 1] == bl;
    assert half[b + 1 := half[b + 1] + 1] == bl2;
    assert bl'[max := bl'[max] + 1] == bl2;
    FirstBump(bl1, b, max); FirstBump(bl1, b + 1, max); FirstBump(half, b + 1, max); FirstBump(bl', max, max);
    FirstBump(bl1, b, max + 1); FirstBump(bl1, b + 1, max + 1); FirstBump(half, b + 1, max + 1);
    FirstBump(bl', max, max + 1);
    CodesAppend(bl1, bl, 1, b, max); CodesAppend(bl1, half, 1, b + 1, max);
    CodesAppend(half, bl2, 1, b + 1, max); CodesAppend(bl', bl2, 1, max, max);
    Doubles(bl, max); Doubles(bl', max);
    HalfStep(max, b);
    HalfLast(max);
  }

  lemma HalfLast(max: nat)
    ensures Half(max + 1, max) == 1 && Half(max, max) == 0
  {
  }

  /** build_tree has merged the symbols that occur, and only those; the others have length 0. */
  ghost predicate Ready(tree: seq<Node>, t: Merging, desc: Desc, maxCode: nat) {
    && t.Ok() && desc.Ok() && t.elems == desc.elems && t.elems + t.leaves - 1 <= |tree|
    && maxCode < t.elems
    && (forall p :: 0 <= p < |t.order| && t.order[p] < t.elems ==> t.order[p] <= maxCode && tree[t.order[p]].fc > 0)
    && (forall p :: 1 <= p < |t.order| ==> tree[t.order[p]].dl == t.elems + t.Father(p))
    && (forall i :: 0 <= i < t.elems ==> if tree[i].fc > 0 then i in t.order else tree[i].dl == 0)
  }

  /** The Freq fields of the first n nodes. */
  function FreqsOf(tree: seq<Node>, n: nat): (f: seq<nat>)
    requires n <= |tree|
    ensures |f| == n && forall i :: 0 <= i < n ==> f[i] == tree[i].fc
  {
    seq(n, i requires 0 <= i < n => tree[i].fc)
  }

  /** What the symbols cost that have a length in len already, at per bits each. */
  ghost function Charged(desc: Desc, len: seq<nat>, per: seq<nat>): (c: seq<nat>)
    requires |len| <= |per| && |len| <= desc.base + |desc.extra|
    ensures |c| == |len|
  {
    seq(|len|, i requires 0 <= i < |len| => if len[i] == 0 then 0 else per[i] + desc.Extra(i))
  }

  lemma ChargeLeaf(desc: Desc, f: seq<nat>, len: seq<nat>, per: seq<nat>, per': seq<nat>, n: nat, b: nat)
    requires |f| == |len| <= |per| == |per'| && |len| <= desc.base + |desc.extra| && n < |len| && len[n] == 0 && b > 0
    requires forall i :: 0 <= i < |len| && i != n ==> per[i] == per'[i]
    ensures Cost(f, Charged(desc, len[n := b], per')) ==
            Cost(f, Charged(desc, len, per)) + f[n] * (per'[n] + desc.Extra(n))
  {
    hide Cost;
    var c := Charged(desc, len, per);
    CostUpdate(f, c, n, per'[n] + desc.Extra(n));
    assert Charged(desc, len[n := b], per') == c[n := per'[n] + desc.Extra(n)];
  }

  /** The lengths given to the leaves before place h, and what they add up to. */
  ghost predicate Tallied(tree: seq<Node>, tree0: seq<Node>, t: Merging, desc: Desc, h: nat, len: seq<nat>,
                          bl: Counts, opt: int, stat: int)
  {
    && t.Ok() && desc.Ok() && t.elems == desc.elems == |len| && |len| <= |tree| == |tree0| && 1 <= h <= |t.order|
    && (forall p :: 0 <= p < |t.order| ==> t.order[p] < |tree|)
    && (forall p :: 1 <= p < h && t.order[p] < t.elems ==>
          1 <= len[t.order[p]] == tree[t.order[p]].dl <= desc.maxLength)
    && (forall p :: h <= p < |t.order| && t.order[p] < t.elems ==> len[t.order[p]] == 0)
    && (forall i :: 0 <= i < |len| && len[i] == 0 ==> tree[i].dl == tree0[i].dl)
    && (forall i :: 0 <= i < |len| && len[i] > 0 ==> tree0[i].fc > 0)
    && (forall k :: 1 <= k <= MAX_BITS ==> bl[k] == CountOf(len, k)) && bl[0] == 0
    && CodesFrom(bl, 1, desc.maxLength) == LeavesIn(t.order[..h], t.elems)
    && var f := FreqsOf(tree0, t.elems);
       && opt == Cost(f, Charged(desc, len, len))
       && (desc.stree != [] ==> stat == Cost(f, Charged(desc, len, desc.stree)))
  }

  lemma TalliedStart(tree: seq<Node>, tree0: seq<Node>, t: Merging, desc: Desc, maxCode: nat, len: seq<nat>, bl: Counts)
    requires Ready(tree0, t, desc, maxCode) && |tree| == |tree0| && |len| == t.elems
    requires forall i :: 0 <= i < |tree| && i != t.order[0] ==> tree[i] == tree0[i]
    requires forall i :: 0 <= i < |len| ==> len[i] == 0
    requires forall k :: 0 <= k <= MAX_BITS ==> bl[k] == 0
    ensures Tallied(tree, tree0, t, desc, 1, len, bl, 0, 0)
  {
    hide CountOf, CodesFrom, Cost, Pow2;
    forall k | 1 <= k <= MAX_BITS ensures CountOf(len, k) == 0 { CountZeros(len, k); }
    NoCodes(bl, 1, desc.maxLength);
    assert t.order[..1][..0] == [] && LeavesIn([], t.elems) == 0;
    var f := FreqsOf(tree0, t.elems);
    CostZero(f, Charged(desc, len, len));
    if desc.stree != [] { CostZero(f, Charged(desc, len, desc.stree)); }
  }

  lemma {:induction false} CountZeros(b: seq<nat>, k: nat)
    requires k > 0 && forall i :: 0 <= i < |b| ==> b[i] == 0
    ensures CountOf(b, k) == 0
  {
    if b != [] { CountZeros(b[..|b| - 1], k); }
  }

  lemma TalliedInternal(tree: seq<Node>, tree0: seq<Node>, t: Merging, desc: Desc, h: nat, len: seq<nat>, bl: Counts,
                        opt: int, stat: int, b: nat)
    requires Tallied(tree, tree0, t, desc, h, len, bl, opt, stat) && h < |t.order| && t.order[h] >= t.elems
    ensures Tallied(tree[t.order[h] := tree[t.order[h]].(dl := b)], tree0, t, desc, h + 1, len, bl, opt, stat)
  {
    hide CountOf, CodesFrom, Cost, Pow2, Charged, FreqsOf;
    assert t.order[..h + 1][..h] == t.order[..h];
  }

  lemma TalliedLeaf(tree: seq<Node>, tree0: seq<Node>, t: Merging, desc: Desc, h: nat, len: seq<nat>, bl: Counts,
                    opt: int, stat: int, b: nat)
    requires Tallied(tree, tree0, t, desc, h, len, bl, opt, stat) && h < |t.order| && t.order[h] < t.elems
    requires 1 <= b <= desc.maxLength && tree0[t.order[h]].fc > 0
    ensures var n := t.order[h];
            var f := tree0[n].fc;
            Tallied(tree[n := tree[n].(dl := b)], tree0, t, desc, h + 1, len[n := b], bl[b := bl[b] + 1],
                    opt + f * (b + desc.Extra(n)),
                    stat + if desc.stree == [] then 0 else f * (desc.stree[n] + desc.Extra(n)))
  {
    hide CountOf, CodesFrom, Cost, Pow2, Charged;
    var n := t.order[h];
    assert t.order[..h + 1][..h] == t.order[..h];
    var len', bl' := len[n := b], bl[b := bl[b] + 1];
    forall k | 1 <= k <= MAX_BITS ensures bl'[k] == CountOf(len', k) { CountUpdate(len, n, b, k); }
    CodesAppend(bl, bl', 1, b, desc.maxLength);
    var fs := FreqsOf(tree0, t.elems);
    ChargeLeaf(desc, fs, len, len, len[n := b], n, b);
    if desc.stree != [] { ChargeLeaf(desc, fs, len, desc.stree, desc.stree, n, b); }
  }

  /** The first pass between two rounds: nodes from place h on still know their father. */
  ghost predicate Passing(tree: seq<Node>, tree0: seq<Node>, t: Merging, desc: Desc, h: nat, len: seq<nat>,
                          bl: Counts, overflow: nat, deep: bool, opt: int, stat: int)
  {
    && |tree| == |tree0| && |len| == t.elems && t.Ok() && 1 <= h <= |t.order| && t.elems + t.leaves - 1 <= |tree|
    && (forall i :: 0 <= i < |tree| ==> tree[i].fc == tree0[i].fc)
    && (forall p :: h <= p < |t.order| ==> tree[t.order[p]].dl == t.elems + t.Father(p))
    && Balanced(t, LensOf(tree, |tree|), h, desc.maxLength, bl, overflow, deep)
    && Tallied(tree, tree0, t, desc, h, len, bl, opt, stat)
  }

  /** The lengths up to place h are the depths in the merge tree, cut off at max; there is no
      overflow if nothing had to be cut off. */
  ghost predicate Capped(tree: seq<Node>, t: Merging, h: nat, max: nat, overflow: nat) {
    && t.Ok() && t.elems + t.leaves - 1 <= |tree| && h <= |t.order|
    && (forall p :: 0 <= p < h ==> tree[t.order[p]].dl == Min(t.Depth(p), max))
    && (overflow == 0 <==> forall p :: 0 <= p < h ==> t.Depth(p) <= max)
  }

  lemma CappedStart(tree: seq<Node>, t: Merging, max: nat)
    requires t.Ok() && t.elems + t.leaves - 1 <= |tree| && tree[t.order[0]].dl == 0
    ensures Capped(tree, t, 1, max, 0)
  {
  }

  lemma CappedStep(tree: seq<Node>, t: Merging, h: nat, max: nat, overflow: nat)
    requires Capped(tree, t, h, max, overflow) && 1 <= h < |t.order|
    ensures t.elems + t.Father(h) < |tree|
    ensures var n, x := t.order[h], tree[t.elems + t.Father(h)].dl;
            Capped(tree[n := tree[n].(dl := SonLength(x, max))], t, h + 1, max, overflow + if x + 1 > max then 1 else 0)
  {
    hide Merging.Depth, Merging.Father, Merging.FirstSon;
    DepthStep(t, h);
    var tree' := tree[t.order[h] := tree[t.order[h]].(dl := SonLength(tree[t.elems + t.Father(h)].dl, max))];
    forall p | 0 <= p < h ensures tree'[t.order[p]] == tree[t.order[p]] {
      assert t.order[p] != t.order[h];
    }
  }

  lemma DepthStep(t: Merging, h: nat)
    requires t.Ok() && 1 <= h < |t.order|
    ensures t.Father(h) < |t.pos| && t.pos[t.Father(h)] < h && t.order[t.pos[t.Father(h)]] == t.elems + t.Father(h)
    ensures t.Depth(h) == t.Depth(t.pos[t.Father(h)]) + 1
  {
    t.FatherSeen(h);
  }

  /** One round of the first pass: the length of a node is one more than its father's, but at
      most the greatest length. */
  method PassNode(tree1: seq<Node>, ghost tree0: seq<Node>, order: seq<nat>, ghost t: Merging, desc: Desc, maxCode: nat,
                  h: nat,
                  ghost len1: seq<nat>, bl1: Counts, overflow1: nat, ghost deep1: bool, opt1: int, stat1: int)
    returns (tree: seq<Node>, ghost len: seq<nat>, bl: Counts, overflow: nat, ghost deep: bool, opt: int, stat: int)
    requires Ready(tree0, t, desc, maxCode) && order == t.order && h < |t.order|
    requires Passing(tree1, tree0, t, desc, h, len1, bl1, overflow1, deep1, opt1, stat1)
    requires Capped(tree1, t, h, desc.maxLength, overflow1)
    ensures Passing(tree, tree0, t, desc, h + 1, len, bl, overflow, deep, opt, stat)
    ensures Capped(tree, t, h + 1, desc.maxLength, overflow)
  {
    hide Balanced, Tallied, Pow2, LeavesIn, Merging.Father, Capped;
    CappedStep(tree1, t, h, desc.maxLength, overflow1);
    tree, len, bl, overflow, opt, stat := tree1, len1, bl1, overflow1, opt1, stat1;
    var n := order[h];
    deep := BalancedStep(t, LensOf(tree, |tree|), h, desc.maxLength, bl, overflow, deep1);
    var bits := tree[tree[n].dl].dl + 1;
    if bits > desc.maxLength { bits, overflow := desc.maxLength, overflow + 1; }
    tree := tree[n := tree[n].(dl := bits)];
    assert LensOf(tree, |tree|) == LensOf(tree1, |tree|)[n := bits];
    if n > maxCode {
      TalliedInternal(tree1, tree0, t, desc, h, len, bl, opt, stat, bits);
    } else {
      TalliedLeaf(tree1, tree0, t, desc, h, len, bl, opt, stat, bits);
      bl := bl[bits := bl[bits] + 1];
      len := len[n := bits];
      var xbits := if n >= desc.base then desc.extra[n - desc.base] else 0;
      var f := tree[n].fc;
      opt := opt + f * (bits + xbits);
      if desc.stree != [] { stat := stat + f * (desc.stree[n] + xbits); }
    }
  }

  /** gen_bitlen, the first pass. */
  method FirstPass(tree0: seq<Node>, order: seq<nat>, ghost t: Merging, desc: Desc, maxCode: nat)
    returns (tree: seq<Node>, bl: Counts, overflow: nat, opt: int, stat: int, ghost len: seq<nat>)
    requires Ready(tree0, t, desc, maxCode) && order == t.order
    ensures |tree| == |tree0| && forall i :: 0 <= i < |tree| ==> tree[i].fc == tree0[i].fc
    ensures overflow % 2 == 0 && End(bl, desc.maxLength) == Pow2(desc.maxLength) + overflow / 2
    ensures overflow > 0 ==> First(bl, desc.maxLength) < Pow2(desc.maxLength)
    ensures Tallied(tree, tree0, t, desc, |t.order|, len, bl, opt, stat)
    ensures Capped(tree, t, |t.order|, desc.maxLength, overflow)
  {
    hide Balanced, Tallied, Pow2, First, LeavesIn, Capped;
    bl, overflow, opt, stat := seq(MAX_BITS + 1, _ => 0), 0, 0, 0;
    var root := order[0];
    tree := tree0[root := tree0[root].(dl := 0)];
    len := seq(t.elems, _ => 0);
    ghost var deep := false;
    TalliedStart(tree, tree0, t, desc, maxCode, len, bl);
    BalancedStart(t, LensOf(tree, |tree|), desc.maxLength, bl);
    CappedStart(tree, t, desc.maxLength);
    var h := 1;
    while h < |order|
      invariant 1 <= h <= |t.order|
      invariant Passing(tree, tree0, t, desc, h, len, bl, overflow, deep, opt, stat)
      invariant Capped(tree, t, h, desc.maxLength, overflow)
    {
      tree, len, bl, overflow, deep, opt, stat :=
        PassNode(tree, tree0, order, t, desc, maxCode, h, len, bl, overflow, deep, opt, stat);
      h := h + 1;
    }
    BalancedEnd(t, LensOf(tree, |tree|), desc.maxLength, bl, overflow, deep);
  }

  /** What gen_bitlen computes, apart from the Kraft sum: symbols that occur have a length up to
      the greatest, the others have none; bl counts the lengths; opt and stat are the bits
      that the symbols take with these lengths and with the static ones. */
  ghost predicate Limited(tree: seq<Node>, tree0: seq<Node>, desc: Desc, bl: Counts, opt: int, stat: int) {
    && desc.Ok() && desc.elems <= |tree| == |tree0|
    && (forall i :: 0 <= i < |tree| ==> tree[i].fc == tree0[i].fc)
    && (forall i :: 0 <= i < desc.elems ==> (tree0[i].fc > 0 <==> tree[i].dl > 0) && tree[i].dl <= desc.maxLength)
    && bl[0] == 0 && (forall k :: 1 <= k <= MAX_BITS ==> bl[k] == CountOf(LensOf(tree, desc.elems), k))
    && var f := FreqsOf(tree0, desc.elems);
       && opt == Cost(f, desc.Bits(LensOf(tree, desc.elems)))
       && (desc.stree != [] ==> stat == Cost(f, desc.Bits(desc.stree[..desc.elems])))
  }

  lemma TalliedIsLimited(tree: seq<Node>, tree0: seq<Node>, t: Merging, desc: Desc, maxCode: nat, len: seq<nat>,
                         bl: Counts, opt: int, stat: int)
    requires Ready(tree0, t, desc, maxCode) && Tallied(tree, tree0, t, desc, |t.order|, len, bl, opt, stat)
    requires forall i :: 0 <= i < |tree| ==> tree[i].fc == tree0[i].fc
    ensures Limited(tree, tree0, desc, bl, opt, stat) && CodesFrom(bl, 1, desc.maxLength) == LeavesIn(t.order, t.elems)
  {
    hide CountOf, CodesFrom, Cost, Pow2, LeavesIn;
    assert t.order[..|t.order|] == t.order;
    forall i | 0 <= i < t.elems
      ensures len[i] == tree[i].dl <= desc.maxLength && (tree0[i].fc > 0 <==> len[i] > 0)
    {
      if tree0[i].fc > 0 {
        var p :| 0 <= p < |t.order| && t.order[p] == i;
        assert p != 0;
      }
    }
    assert len == LensOf(tree, t.elems);
    var f := FreqsOf(tree0, t.elems);
    CostAgrees(f, Charged(desc, len, len), desc.Bits(len));
    if desc.stree != [] { CostAgrees(f, Charged(desc, len, desc.stree), desc.Bits(desc.stree[..t.elems])); }
  }

  lemma {:induction false} CodesLast(c: Counts, j: nat, g: nat)
    requires 1 <= j <= g <= MAX_BITS
    ensures CodesFrom(c, j, g) == CodesFrom(c, j, g - 1) + c[g]
    decreases g - j
  {
    if j < g { CodesLast(c, j + 1, g); } else { assert CodesFrom(c, g + 1, g) == 0 == CodesFrom(c, g, g - 1); }
  }

  /** Recomputing the lengths: len holds those given to the leaves from place h on; n codes of
      length bits and all shorter ones are still to be given. */
  ghost predicate Moving(tree: seq<Node>, tree0: seq<Node>, t: Merging, desc: Desc, h: nat, len: seq<nat>,
                         bl: Counts, bits: nat, n: nat, opt: int)
  {
    && t.Ok() && desc.Ok() && t.elems == desc.elems == |len| && |len| <= |tree| == |tree0| && h <= |t.order|
    && bits <= desc.maxLength && n <= bl[bits] && bl[0] == 0
    && (forall i :: 0 <= i < |tree| ==> tree[i].fc == tree0[i].fc)
    && (forall p :: h <= p < |t.order| && t.order[p] < t.elems ==>
          1 <= len[t.order[p]] == tree[t.order[p]].dl <= desc.maxLength)
    && (forall p :: 0 <= p < h && t.order[p] < t.elems ==> len[t.order[p]] == 0)
    && (forall p :: 0 <= p < |t.order| && t.order[p] < t.elems ==> tree0[t.order[p]].fc > 0)
    && (forall i :: 0 <= i < |len| ==> if tree0[i].fc > 0 then i in t.order else len[i] == tree[i].dl == 0)
    && (forall k :: 1 <= k <= MAX_BITS ==>
          CountOf(len, k) == if k > desc.maxLength then 0 else if k > bits then bl[k] else if k == bits then bl[k] - n
          else 0)
    && LeavesIn(t.order[..h], t.elems) == (if bits == 0 then 0 else n + CodesFrom(bl, 1, bits - 1))
    && opt == Cost(FreqsOf(tree0, t.elems), desc.Bits(LensOf(tree, t.elems)))
  }

  lemma MovingStart(tree: seq<Node>, tree0: seq<Node>, t: Merging, desc: Desc, maxCode: nat, len: seq<nat>,
                    bl0: Counts, bl: Counts, opt: int, stat: int)
    requires Ready(tree0, t, desc, maxCode) && Limited(tree, tree0, desc, bl0, opt, stat)
    requires bl[0] == 0 && CodesFrom(bl, 1, desc.maxLength) == LeavesIn(t.order, t.elems) && |len| == t.elems
    requires forall i :: 0 <= i < |len| ==> len[i] == 0
    ensures Moving(tree, tree0, t, desc, |t.order|, len, bl, desc.maxLength, bl[desc.maxLength], opt)
  {
    hide CountOf, CodesFrom, Cost, Pow2, LeavesIn, Desc.Bits;
    assert t.order[..|t.order|] == t.order;
    forall k | 1 <= k <= MAX_BITS ensures CountOf(len, k) == 0 { CountZeros(len, k); }
    CodesLast(bl, 1, desc.maxLength);
  }

  /** All codes of length bits are given: on to shorter ones. */
  lemma MovingOn(tree: seq<Node>, tree0: seq<Node>, t: Merging, desc: Desc, h: nat, len: seq<nat>, bl: Counts,
                 bits: nat, opt: int)
    requires Moving(tree, tree0, t, desc, h, len, bl, bits, 0, opt) && bits >= 1
    ensures Moving(tree, tree0, t, desc, h, len, bl, bits - 1, bl[bits - 1], opt)
  {
    hide CountOf, Cost, Pow2, LeavesIn, Desc.Bits;
    if bits > 1 { CodesLast(bl, 1, bits - 1); }
  }

  lemma MoveInternal(tree: seq<Node>, tree0: seq<Node>, t: Merging, desc: Desc, h: nat, len: seq<nat>, bl: Counts,
                     bits: nat, n: nat, opt: int)
    requires Moving(tree, tree0, t, desc, h, len, bl, bits, n, opt) && h > 0 && t.order[h - 1] >= t.elems
    ensures Moving(tree, tree0, t, desc, h - 1, len, bl, bits, n, opt)
  {
    hide CountOf, Cost, Pow2, CodesFrom, Desc.Bits;
    assert t.order[..h][..h - 1] == t.order[..h - 1];
  }

  /** There is a leaf left for every code that is left. */
  lemma SomeLeft(tree: seq<Node>, tree0: seq<Node>, t: Merging, desc: Desc, h: nat, len: seq<nat>, bl: Counts,
                 bits: nat, n: nat, opt: int)
    requires Moving(tree, tree0, t, desc, h, len, bl, bits, n, opt) && n > 0 && bits >= 1
    ensures h > 0
  {
    hide CountOf, Cost, Pow2, CodesFrom, Desc.Bits;
  }

  lemma Recharge(desc: Desc, f: seq<nat>, len: seq<nat>, m: nat, b: nat)
    requires |f| == |len| <= desc.base + |desc.extra| && m < |len|
    ensures Cost(f, desc.Bits(len[m := b])) == Cost(f, desc.Bits(len)) + (b - len[m]) * f[m]
  {
    hide Cost;
    var c, v := desc.Bits(len), b + desc.Extra(m);
    CostUpdate(f, c, m, v);
    assert desc.Bits(len[m := b]) == c[m := v];
  }

  lemma MoveLeaf(tree: seq<Node>, tree0: seq<Node>, t: Merging, desc: Desc, h: nat, len: seq<nat>, bl: Counts,
                 bits: nat, n: nat, opt: int)
    requires Moving(tree, tree0, t, desc, h, len, bl, bits, n, opt) && h > 0 && t.order[h - 1] < t.elems && n > 0 &&
             bits >= 1
    ensures var m := t.order[h - 1];
            && Moving(tree[m := tree[m].(dl := bits)], tree0, t, desc, h - 1, len[m := bits], bl, bits, n - 1,
                      opt + (bits - tree[m].dl) * tree[m].fc)
            && (tree[m].dl == bits ==> Moving(tree, tree0, t, desc, h - 1, len[m := bits], bl, bits, n - 1, opt))
  {
    hide CountOf, Cost, Pow2, CodesFrom, Desc.Bits;
    var m := t.order[h - 1];
    assert t.order[..h][..h - 1] == t.order[..h - 1];
    var len', tree' := len[m := bits], tree[m := tree[m].(dl := bits)];
    forall k | 1 <= k <= MAX_BITS
      ensures CountOf(len', k) == CountOf(len, k) + if k == bits then 1 else 0
    {
      CountUpdate(len, m, bits, k);
    }
    assert LensOf(tree', t.elems) == LensOf(tree, t.elems)[m := bits];
    Recharge(desc, FreqsOf(tree0, t.elems), LensOf(tree, t.elems), m, bits);
    assert tree[m].dl == bits ==> tree' == tree;
  }

  /** All lengths are given. */
  lemma MovingIsLimited(tree: seq<Node>, tree0: seq<Node>, t: Merging, desc: Desc, maxCode: nat, h: nat, len: seq<nat>,
                        bl: Counts, opt: int, stat: int)
    requires Ready(tree0, t, desc, maxCode) && Moving(tree, tree0, t, desc, h, len, bl, 0, 0, opt)
    requires desc.stree != [] ==> stat == Cost(FreqsOf(tree0, desc.elems), desc.Bits(desc.stree[..desc.elems]))
    requires forall k :: desc.maxLength < k <= MAX_BITS ==> bl[k] == 0
    ensures Limited(tree, tree0, desc, bl, opt, stat)
  {
    hide CountOf, CodesFrom, Cost, Pow2, Desc.Bits, LeavesIn;
    forall i | 0 <= i < t.elems
      ensures len[i] == tree[i].dl <= desc.maxLength && (tree0[i].fc > 0 <==> len[i] > 0)
    {
      if tree0[i].fc > 0 {
        var p :| 0 <= p < |t.order| && t.order[p] == i;
        if p < h { LeafLeft(t.order, h, p, t.elems); }
      }
    }
    assert len == LensOf(tree, t.elems);
  }

  lemma {:induction false} LeafLeft(s: seq<nat>, h: nat, p: nat, elems: nat)
    requires p < h <= |s| && s[p] < elems
    ensures LeavesIn(s[..h], elems) > 0
    decreases h
  {
    assert s[..h][..h - 1] == s[..h - 1];
    if p < h - 1 { LeafLeft(s, h - 1, p, elems); }
  }

  /** From place h on, leaves further back have lengths that are not less, and at least bits. */
  ghost predicate Falling(t: Merging, len: seq<nat>, h: nat, bits: nat) {
    && |len| == t.elems && h <= |t.order|
    && (forall p :: h <= p < |t.order| && t.order[p] < t.elems ==> len[t.order[p]] >= bits)
    && (forall p, q :: h <= p < q < |t.order| && t.order[p] < t.elems && t.order[q] < t.elems ==>
          len[t.order[p]] <= len[t.order[q]])
  }

  lemma FallingStep(t: Merging, len: seq<nat>, h: nat, bits: nat)
    requires t.Ok() && Falling(t, len, h, bits) && h > 0
    ensures t.order[h - 1] >= t.elems ==> Falling(t, len, h - 1, bits)
    ensures t.order[h - 1] < t.elems ==> Falling(t, len[t.order[h - 1] := bits], h - 1, bits)
  {
  }

  lemma FallingOn(t: Merging, len: seq<nat>, h: nat, bits: nat)
    requires Falling(t, len, h, bits) && bits > 0
    ensures Falling(t, len, h, bits - 1)
  {
  }

  /** `while (n != 0)` of the last pass: length bits for the next n leaves from the back. */
  method GiveLength(tree1: seq<Node>, ghost tree0: seq<Node>, order: seq<nat>, ghost t: Merging, ghost desc: Desc,
                    maxCode: nat, h1: nat,
                    ghost len1: seq<nat>, ghost bl: Counts, bits: nat, n1: nat, opt1: int)
    returns (tree: seq<Node>, h: nat, ghost len: seq<nat>, opt: int)
    requires Ready(tree0, t, desc, maxCode) && order == t.order &&
             Moving(tree1, tree0, t, desc, h1, len1, bl, bits, n1, opt1) && bits >= 1
    requires Falling(t, len1, h1, bits)
    ensures Moving(tree, tree0, t, desc, h, len, bl, bits, 0, opt) && Falling(t, len, h, bits)
  {
    hide Moving, LeavesIn, Pow2, Merging.Father, Merging.FirstSon, Falling, Ready, Merging.Ok;
    assert t.Ok() by { ReadyIs(tree0, t, desc, maxCode); }
    tree, h, len, opt := tree1, h1, len1, opt1;
    var n := n1;
    MovingSizes(tree, tree0, t, desc, h, len, bl, bits, n, opt);
    while n != 0
      invariant h <= |t.order| && |tree| == |tree0| && |len| == t.elems
      invariant Moving(tree, tree0, t, desc, h, len, bl, bits, n, opt) && Falling(t, len, h, bits)
      decreases h
    {
      SomeLeft(tree, tree0, t, desc, h, len, bl, bits, n, opt);
      FallingStep(t, len, h, bits);
      h := h - 1;
      LeafOrNot(tree0, t, desc, maxCode, h);
      var m := order[h];
      if m > maxCode {
        MoveInternal(tree, tree0, t, desc, h + 1, len, bl, bits, n, opt);
        continue;
      }
      MoveLeaf(tree, tree0, t, desc, h + 1, len, bl, bits, n, opt);
      len := len[m := bits];
      if tree[m].dl != bits {
        opt := opt + (bits - tree[m].dl) * tree[m].fc;
        tree := tree[m := tree[m].(dl := bits)];
      }
      n := n - 1;
    }
  }

  lemma ReadyIs(tree: seq<Node>, t: Merging, desc: Desc, maxCode: nat)
    requires Ready(tree, t, desc, maxCode)
    ensures t.Ok() && desc.Ok() && t.elems == desc.elems && forall p :: 0 <= p < |t.order| ==> t.order[p] < |tree|
  {
  }

  /** The symbols are those up to maxCode. */
  lemma LeafOrNot(tree: seq<Node>, t: Merging, desc: Desc, maxCode: nat, p: nat)
    requires Ready(tree, t, desc, maxCode) && p < |t.order|
    ensures t.order[p] < |tree| && (t.order[p] > maxCode <==> t.order[p] >= t.elems)
  {
  }

  lemma MovingSizes(tree: seq<Node>, tree0: seq<Node>, t: Merging, desc: Desc, h: nat, len: seq<nat>, bl: Counts,
                    bits: nat, n: nat, opt: int)
    requires Moving(tree, tree0, t, desc, h, len, bl, bits, n, opt)
    ensures h <= |t.order| && |tree| == |tree0| && |len| == t.elems
  {
  }

  /** gen_bitlen, the last pass: the lengths anew, in order of increasing frequency. */
  method Reassign(tree1: seq<Node>, ghost tree0: seq<Node>, order: seq<nat>, ghost t: Merging, desc: Desc, maxCode: nat,
                  ghost bl0: Counts, bl: Counts, opt1: int, stat: int)
    returns (tree: seq<Node>, opt: int)
    requires Ready(tree0, t, desc, maxCode) && order == t.order && Limited(tree1, tree0, desc, bl0, opt1, stat)
    requires bl[0] == 0 && CodesFrom(bl, 1, desc.maxLength) == LeavesIn(t.order, t.elems)
    requires forall k :: desc.maxLength < k <= MAX_BITS ==> bl[k] == 0
    ensures Limited(tree, tree0, desc, bl, opt, stat) && Falling(t, LensOf(tree, t.elems), 0, 0)
  {
    hide Moving, Limited, Falling, CodesFrom, Cost, Pow2, Desc.Bits, LeavesIn, Merging.Ok;
    tree, opt := tree1, opt1;
    ghost var len: seq<nat> := seq(t.elems, _ => 0);
    StatIs(tree, tree0, desc, bl0, opt, stat);
    MovingStart(tree, tree0, t, desc, maxCode, len, bl0, bl, opt, stat);
    NothingFalls(t, len, desc.maxLength);
    var h: nat, bits: nat := |order|, desc.maxLength;
    while bits != 0
      invariant bits <= desc.maxLength
      invariant Moving(tree, tree0, t, desc, h, len, bl, bits, bl[bits], opt) && Falling(t, len, h, bits)
    {
      tree, h, len, opt := GiveLength(tree, tree0, order, t, desc, maxCode, h, len, bl, bits, bl[bits], opt);
      MovingOn(tree, tree0, t, desc, h, len, bl, bits, opt);
      FallingOn(t, len, h, bits);
      bits := bits - 1;
    }
    MovingIsLimited(tree, tree0, t, desc, maxCode, h, len, bl, opt, stat);
    AllFall(tree, tree0, t, desc, maxCode, h, len, bl, opt);
  }

  lemma NothingFalls(t: Merging, len: seq<nat>, bits: nat)
    requires |len| == t.elems
    ensures Falling(t, len, |t.order|, bits)
  {
  }

  lemma AllFall(tree: seq<Node>, tree0: seq<Node>, t: Merging, desc: Desc, maxCode: nat, h: nat, len: seq<nat>,
                bl: Counts, opt: int)
    requires Ready(tree0, t, desc, maxCode) && Moving(tree, tree0, t, desc, h, len, bl, 0, 0, opt)
    requires Falling(t, len, h, 0)
    ensures t.elems <= |tree| && Falling(t, LensOf(tree, t.elems), 0, 0)
  {
    hide CountOf, CodesFrom, Cost, Pow2, Desc.Bits, LeavesIn;
    forall p | 0 <= p < |t.order| && t.order[p] < t.elems ensures p >= h && len[t.order[p]] == tree[t.order[p]].dl {
      if p < h { LeafLeft(t.order, h, p, t.elems); }
    }
  }

  lemma StatIs(tree: seq<Node>, tree0: seq<Node>, desc: Desc, bl: Counts, opt: int, stat: int)
    requires Limited(tree, tree0, desc, bl, opt, stat)
    ensures desc.Ok() && desc.elems <= |tree| == |tree0|
    ensures desc.stree != [] ==> stat == Cost(FreqsOf(tree0, desc.elems), desc.Bits(desc.stree[..desc.elems]))
  {
  }

  /** gen_bitlen. */
  method GenBitlen(tree0: seq<Node>, order: seq<nat>, ghost t: Merging, desc: Desc, maxCode: nat)
    returns (tree: seq<Node>, bl: Counts, opt: int, stat: int)
    requires Ready(tree0, t, desc, maxCode) && order == t.order
    ensures Limited(tree, tree0, desc, bl, opt, stat)
    ensures End(bl, desc.maxLength) == Pow2(desc.maxLength)
    ensures CodesFrom(bl, 1, desc.maxLength) == LeavesIn(t.order, t.elems)
    ensures t.Shallow(desc.maxLength) ==> forall p :: 0 <= p < |t.order| ==> tree[t.order[p]].dl == t.Depth(p)
    ensures !t.Shallow(desc.maxLength) ==> Falling(t, LensOf(tree, t.elems), 0, 0)
  {
    hide Tallied, Limited, Cost, Pow2, First, CodesFrom, LeavesIn, Falling;
    var overflow;
    ghost var len;
    tree, bl, overflow, opt, stat, len := FirstPass(tree0, order, t, desc, maxCode);
    TalliedIsLimited(tree, tree0, t, desc, maxCode, len, bl, opt, stat);
    if overflow == 0 { return; }
    ghost var bl0 := bl;
    NoneLonger(tree, tree0, desc, bl, opt, stat);
    bl := Repair(bl, desc.maxLength, overflow);
    tree, opt := Reassign(tree, tree0, order, t, desc, maxCode, bl0, bl, opt, stat);
  }

  lemma NoneLonger(tree: seq<Node>, tree0: seq<Node>, desc: Desc, bl: Counts, opt: int, stat: int)
    requires Limited(tree, tree0, desc, bl, opt, stat)
    ensures bl[0] == 0 && forall k :: desc.maxLength < k <= MAX_BITS ==> bl[k] == 0
    ensures CodesFrom(bl, 1, desc.maxLength) <= Pow2(desc.maxLength)
  {
    hide CountOf, Cost, Pow2, Desc.Bits, CodesFrom;
    var b := LensOf(tree, desc.elems);
    CodesAtMost(b, desc.maxLength);
    CodesSame(CountsOf(b), bl, 1, desc.maxLength);
    forall k | desc.maxLength < k <= MAX_BITS ensures bl[k] == 0 {
      if bl[k] > 0 { var sym := RankSurjective(b, k, 0); }
    }
  }
}
