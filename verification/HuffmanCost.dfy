/** Why merging the two least frequent nodes of build_tree in zlib/trees.c gives the cheapest
    code: no list of lengths with a Kraft sum of at most one costs less than the depths of the
    merge tree. */
module HuffmanCost {
  import opened Arith
  import opened Canonical
  import opened SymbolCodes
  import opened BitLengths
  import opened TreeLengths

  /** The weights w of the nodes decrease along the order, and an internal node weighs what its
      sons weigh. */
  ghost predicate Huffman(t: Merging, w: seq<nat>) {
    && t.Ok() && t.elems + t.leaves - 1 <= |w|
    && (forall p, q :: 0 <= p < q < |t.order| ==> w[t.order[p]] >= w[t.order[q]])
    && (forall p :: 0 <= p < |t.order| ==> w[t.order[p]] > 0)
    && (forall j :: 0 <= j < t.leaves - 1 ==> Weighed(t, w, j))
  }

  ghost predicate Weighed(t: Merging, w: seq<nat>, j: nat)
    requires t.Ok() && t.elems + t.leaves - 1 <= |w| && j + 2 <= t.leaves
  {
    w[t.elems + j] == w[t.order[t.FirstSon(j)]] + w[t.order[t.FirstSon(j) + 1]]
  }

  /** Place p is not yet merged away once k internal nodes have been made. */
  predicate Standing(t: Merging, k: nat, p: nat)
    requires p < |t.order|
  {
    p + 2 * k < |t.order| && (t.order[p] < t.elems || t.order[p] - t.elems < k)
  }

  /** The values v of the nodes that stand after k merges, by their places. */
  ghost function Forest(t: Merging, v: seq<nat>, k: nat): (s: seq<nat>)
    requires t.Ok() && t.elems + t.leaves - 1 <= |v|
    ensures |s| == |t.order|
  {
    seq(|t.order|, p requires 0 <= p < |t.order| => if Standing(t, k, p) then v[t.order[p]] else 0)
  }

  /** The places of the next two sons. */
  lemma NextSons(t: Merging, k: nat)
    requires t.Ok() && k + 2 <= t.leaves
    ensures var s := t.FirstSon(k);
            && s + 2 + 2 * k == |t.order| && Standing(t, k, s) && Standing(t, k, s + 1)
            && t.order[s] != t.elems + k && t.order[s + 1] != t.elems + k
  {
    var s := t.FirstSon(k);
    forall i | s <= i <= s + 1 ensures t.order[i] < t.elems || t.order[i] - t.elems < k {
      if t.order[i] >= t.elems {
        var j := t.order[i] - t.elems;
        assert t.order[t.pos[j]] == t.order[i];
      }
    }
  }

  /** A merge replaces two nodes by their father. */
  lemma ForestStep(t: Merging, v: seq<nat>, k: nat)
    requires t.Ok() && t.elems + t.leaves - 1 <= |v| && k + 2 <= t.leaves
    ensures var s := t.FirstSon(k);
            Sum(Forest(t, v, k + 1)) + v[t.order[s]] + v[t.order[s + 1]] == Sum(Forest(t, v, k)) + v[t.elems + k]
  {
    hide Sum;
    NextSons(t, k);
    var s, p := t.FirstSon(k), t.pos[k];
    var a := Forest(t, v, k);
    var b := a[s := 0];
    var c := b[s + 1 := 0];
    SumUpdate(a, s, 0);
    SumUpdate(b, s + 1, 0);
    SumUpdate(c, p, v[t.elems + k]);
    var e := c[p := v[t.elems + k]];
    forall q | 0 <= q < |t.order| ensures Forest(t, v, k + 1)[q] == e[q] {
      if t.order[q] == t.elems + k { assert t.order[p] == t.order[q]; }
    }
    assert Forest(t, v, k + 1) == e;
  }

  /** Only the root stands in the end. */
  lemma OnlyRoot(t: Merging, v: seq<nat>)
    requires t.Ok() && t.elems + t.leaves - 1 <= |v|
    ensures Sum(Forest(t, v, t.leaves - 1)) == v[t.order[0]]
  {
    hide Sum;
    var s := Forest(t, v, t.leaves - 1);
    SumUpdate(s, 0, 0);
    SumZero(s[0 := 0]);
  }

  /** Changing one value changes the sum by as much. */
  lemma ForestUpdate(t: Merging, v: seq<nat>, k: nat, p: nat, x: nat)
    requires t.Ok() && t.elems + t.leaves - 1 <= |v| && p < |t.order| && Standing(t, k, p)
    ensures Sum(Forest(t, v[t.order[p] := x], k)) + v[t.order[p]] == Sum(Forest(t, v, k)) + x
  {
    hide Sum;
    var s := Forest(t, v, k);
    SumUpdate(s, p, x);
    assert Forest(t, v[t.order[p] := x], k) == s[p := x];
  }

  /** A value that does not stand does not matter. */
  lemma ForestIgnores(t: Merging, v: seq<nat>, k: nat, i: nat, x: nat)
    requires t.Ok() && t.elems + t.leaves - 1 <= |v| && i < |v| && t.elems + k <= i
    ensures Forest(t, v[i := x], k) == Forest(t, v, k)
  {
  }

  /** What nodes of weights w cost at lengths b. */
  ghost function Costs(w: seq<nat>, b: seq<nat>): (c: seq<nat>)
    requires |w| == |b|
    ensures |c| == |b|
  {
    seq(|b|, i requires 0 <= i < |b| => w[i] * b[i])
  }

  /** How many strings of n bits start with a code of b bits. */
  ghost function Shares(b: seq<nat>, n: nat): (c: seq<nat>)
    ensures |c| == |b|
  {
    seq(|b|, i requires 0 <= i < |b| => ShareOf(b[i], n))
  }

  function ShareOf(b: nat, n: nat): nat { if b <= n then Pow2(n - b) else 0 }

  /** The weights of the internal nodes from the k-th on. */
  ghost function Paid(t: Merging, w: seq<nat>, k: nat): nat
    requires t.elems + t.leaves - 1 <= |w|
    decreases t.leaves - k
  {
    if k + 2 <= t.leaves then w[t.elems + k] + Paid(t, w, k + 1) else 0
  }

  /** Lengths for the standing nodes, at most n, with a Kraft sum of at most one. */
  ghost predicate Fitting(t: Merging, b: seq<nat>, n: nat, k: nat) {
    && t.Ok() && t.elems + t.leaves - 1 <= |b|
    && (forall i :: 0 <= i < |b| ==> b[i] <= n)
    && Sum(Forest(t, Shares(b, n), k)) <= Pow2(n)
  }

  /** Giving the greater of two lengths to the lighter of two nodes costs no more. */
  lemma Exchange(t: Merging, w: seq<nat>, b: seq<nat>, n: nat, k: nat, p: nat, q: nat) returns (b': seq<nat>)
    requires Huffman(t, w) && |b| == |w| && Fitting(t, b, n, k)
    requires p <= q < |t.order| && Standing(t, k, p) && Standing(t, k, q) && b[t.order[p]] >= b[t.order[q]]
    ensures b' == b[t.order[q] := b[t.order[p]]][t.order[p] := b[t.order[q]]] && Fitting(t, b', n, k)
    ensures Sum(Forest(t, Costs(w, b'), k)) <= Sum(Forest(t, Costs(w, b), k))
  {
    hide Sum, Pow2, Forest, Standing;
    var x, y := t.order[p], t.order[q];
    b' := b[y := b[x]][x := b[y]];
    if p < q {
      var v := Shares(b, n);
      ForestUpdate(t, v, k, q, v[x]);
      ForestUpdate(t, v[y := v[x]], k, p, v[y]);
      assert Shares(b', n) == v[y := v[x]][x := v[y]];
      var c := Costs(w, b);
      ForestUpdate(t, c, k, q, w[y] * b[x]);
      var c1: seq<nat> := c[y := w[y] * b[x]];
      ForestUpdate(t, c1, k, p, w[x] * b[y]);
      var c2: seq<nat> := c1[x := w[x] * b[y]];
      assert Costs(w, b') == c2;
      Rearranged(w[x], w[y], b[x], b[y]);
    } else {
      assert b' == b;
    }
  }

  lemma Rearranged(wx: nat, wy: nat, lx: nat, ly: nat)
    requires wx >= wy && lx >= ly
    ensures wy * lx + wx * ly <= wx * lx + wy * ly
  {
    assert (wx - wy) * (lx - ly) >= 0;
  }

  /** The standing place below h with the greatest length. */
  lemma Deepest(t: Merging, b: seq<nat>, k: nat, h: nat) returns (p: nat)
    requires t.Ok() && t.elems + t.leaves - 1 <= |b| && h <= |t.order|
    requires exists i :: 0 <= i < h && Standing(t, k, i)
    ensures p < h && Standing(t, k, p)
    ensures forall i :: 0 <= i < h && Standing(t, k, i) ==> b[t.order[i]] <= b[t.order[p]]
    decreases h
  {
    if exists i :: 0 <= i < h - 1 && Standing(t, k, i) {
      p := Deepest(t, b, k, h - 1);
      if Standing(t, k, h - 1) && b[t.order[h - 1]] > b[t.order[p]] { p := h - 1; }
    } else {
      p := h - 1;
    }
  }

  lemma {:induction false} SumShl(s: seq<nat>, s': seq<nat>, e: nat)
    requires |s| == |s'| && forall i :: 0 <= i < |s| ==> s[i] == Shl(s'[i], e)
    ensures Sum(s) == Shl(Sum(s'), e)
  {
    hide Shl;
    if s == [] {
      ShlZero(e);
    } else {
      SumShl(s[..|s| - 1], s'[..|s| - 1], e);
      ShlAdd(Sum(s'[..|s| - 1]), s'[|s| - 1], e);
    }
  }

  /** If one node alone has the greatest length y, and all others have at most x bits, x bits
      are enough for it. */
  lemma Shorten(t: Merging, b: seq<nat>, n: nat, k: nat, q: nat, x: nat)
    requires Fitting(t, b, n, k) && q < |t.order| && Standing(t, k, q) && x <= b[t.order[q]]
    requires forall i :: 0 <= i < |t.order| && Standing(t, k, i) && i != q ==> b[t.order[i]] <= x
    ensures Fitting(t, b[t.order[q] := x], n, k)
  {
    hide Sum, Pow2, Standing, Shl;
    var y := t.order[q];
    var v := Shares(b, n);
    ForestUpdate(t, v, k, q, 0);
    ForestUpdate(t, v, k, q, Pow2(n - x));
    assert Shares(b[y := x], n) == v[y := Pow2(n - x)];
    var rest, e := Forest(t, v[y := 0], k), n - x;
    var small := seq(|rest|, i requires 0 <= i < |rest| =>
      if rest[i] == 0 then 0 else ShareOf(b[t.order[i]], x));
    forall i | 0 <= i < |rest| ensures rest[i] == Shl(small[i], e) {
      if rest[i] == 0 {
        ShlZero(e);
      } else {
        assert Standing(t, k, i) && i != q;
        PowerShl(b[t.order[i]], x, n);
      }
    }
    SumShl(rest, small, e);
    Pow2Positive(n - b[y]);
    ShareFits(Sum(small), x, n);
  }

  lemma PowerShl(b: nat, x: nat, n: nat)
    requires b <= x <= n
    ensures Pow2(n - b) == Shl(Pow2(x - b), n - x)
  {
    hide Pow2, Shl;
    ShlOne(x - b); ShlOne(n - b); ShlShl(1, x - b, n - x);
  }

  /** A multiple of a power of two less than another leaves room for this power. */
  lemma ShareFits(m: nat, x: nat, n: nat)
    requires x <= n && Shl(m, n - x) < Pow2(n)
    ensures Shl(m, n - x) + Pow2(n - x) <= Pow2(n)
  {
    hide Pow2, Shl;
    PowerShl(0, x, n);
    if m >= Pow2(x) { ShlMono(Pow2(x), m, n - x); }
    ShlMono(m + 1, Pow2(x), n - x);
    ShlAdd(m, 1, n - x);
    ShlOne(n - x);
  }

  lemma {:induction false} SumAtLeast(s: seq<nat>, i: nat, j: nat)
    requires i < j < |s|
    ensures Sum(s) >= s[i] + s[j]
  {
    SumUpdate(s, i, 0);
    SumUpdate(s[i := 0], j, 0);
  }

  /** Two nodes need at least a bit each. */
  lemma OneBit(t: Merging, b: seq<nat>, n: nat, k: nat, p: nat, q: nat)
    requires Fitting(t, b, n, k) && p < q < |t.order| && Standing(t, k, p) && Standing(t, k, q)
    ensures b[t.order[p]] >= 1 && b[t.order[q]] >= 1
  {
    hide Sum, Pow2, Standing;
    SumAtLeast(Forest(t, Shares(b, n), k), p, q);
    Pow2Positive(n - b[t.order[p]]);
    Pow2Positive(n - b[t.order[q]]);
  }

  /** The standing node at place q can have the greatest length of those up to there. */
  lemma DeepestAt(t: Merging, w: seq<nat>, b: seq<nat>, n: nat, k: nat, q: nat) returns (b': seq<nat>)
    requires Huffman(t, w) && |b| == |w| && Fitting(t, b, n, k) && q < |t.order| && Standing(t, k, q)
    ensures |b'| == |b| && Fitting(t, b', n, k)
    ensures forall i :: 0 <= i <= q && Standing(t, k, i) ==> b'[t.order[i]] <= b'[t.order[q]]
    ensures forall i :: q < i < |t.order| ==> b'[t.order[i]] == b[t.order[i]]
    ensures exists i :: 0 <= i <= q && Standing(t, k, i) && b'[t.order[q]] == b[t.order[i]]
    ensures Sum(Forest(t, Costs(w, b'), k)) <= Sum(Forest(t, Costs(w, b), k))
  {
    hide Sum, Pow2, Forest, Standing, Huffman;
    var p := Deepest(t, b, k, q + 1);
    b' := Exchange(t, w, b, n, k, p, q);
  }

  /** Lengths in which the next two sons have the same length, and which cost no more. */
  lemma Leveled(t: Merging, w: seq<nat>, b: seq<nat>, n: nat, k: nat) returns (b': seq<nat>)
    requires Huffman(t, w) && |b| == |w| && Fitting(t, b, n, k) && k + 2 <= t.leaves
    ensures |b'| == |b| && Fitting(t, b', n, k)
    ensures b'[t.order[t.FirstSon(k)]] == b'[t.order[t.FirstSon(k) + 1]] >= 1
    ensures Sum(Forest(t, Costs(w, b'), k)) <= Sum(Forest(t, Costs(w, b), k))
  {
    hide Sum, Pow2, Forest, Standing, Huffman, Fitting;
    HuffmanIs(t, w);
    NextSons(t, k);
    var s := t.FirstSon(k);
    var b1 := DeepestAt(t, w, b, n, k, s + 1);
    var b2 := DeepestAt(t, w, b1, n, k, s);
    forall i | 0 <= i < |t.order| && Standing(t, k, i) && i != s + 1 ensures b2[t.order[i]] <= b2[t.order[s]] {
      Below(t, k, i);
    }
    b' := EvenOut(t, w, b2, n, k, s);
  }

  lemma EvenOut(t: Merging, w: seq<nat>, b: seq<nat>, n: nat, k: nat, s: nat) returns (b': seq<nat>)
    requires t.Ok() && t.elems + t.leaves - 1 <= |b| == |w| && Fitting(t, b, n, k) && s + 1 < |t.order|
    requires Standing(t, k, s) && Standing(t, k, s + 1) && b[t.order[s]] <= b[t.order[s + 1]]
    requires forall i :: 0 <= i < |t.order| && Standing(t, k, i) && i != s + 1 ==> b[t.order[i]] <= b[t.order[s]]
    ensures |b'| == |b| && Fitting(t, b', n, k) && b'[t.order[s]] == b'[t.order[s + 1]] >= 1
    ensures Sum(Forest(t, Costs(w, b'), k)) <= Sum(Forest(t, Costs(w, b), k))
  {
    hide Sum, Pow2, Forest, Standing, Fitting;
    var x, y := t.order[s], t.order[s + 1];
    Shorten(t, b, n, k, s + 1, b[x]);
    b' := b[y := b[x]];
    OneBit(t, b', n, k, s, s + 1);
    ForestUpdate(t, Costs(w, b), k, s + 1, w[y] * b[x]);
    var c: seq<nat> := Costs(w, b)[y := w[y] * b[x]];
    assert Costs(w, b') == c;
    MulMono(b[x], b[y], w[y]);
    assert w[y] * b[x] == b[x] * w[y] && w[y] * b[y] == b[y] * w[y];
  }

  lemma HuffmanIs(t: Merging, w: seq<nat>)
    requires Huffman(t, w)
    ensures t.Ok() && t.elems + t.leaves - 1 <= |w|
  {
  }

  lemma Below(t: Merging, k: nat, i: nat)
    requires i < |t.order| && Standing(t, k, i)
    ensures i + 2 * k < |t.order|
  {
  }

  /** No lengths that fit cost less than the merges to come. */
  lemma {:induction false} LowerBound(t: Merging, w: seq<nat>, b: seq<nat>, n: nat, k: nat)
    requires Huffman(t, w) && |b| == |w| && Fitting(t, b, n, k) && k < t.leaves
    ensures Sum(Forest(t, Costs(w, b), k)) >= Paid(t, w, k)
    decreases t.leaves - k
  {
    hide Sum, Pow2, Forest, Standing, Huffman, Fitting;
    if k + 2 <= t.leaves {
      HuffmanIs(t, w);
      var c := Leveled(t, w, b, n, k);
      var l := c[t.order[t.FirstSon(k)]];
      var d := c[t.elems + k := l - 1];
      MergedFits(t, c, n, k, l);
      MergedCost(t, w, c, k, l);
      LowerBound(t, w, d, n, k + 1);
    }
  }

  lemma MergedFits(t: Merging, c: seq<nat>, n: nat, k: nat, l: nat)
    requires Fitting(t, c, n, k) && k + 2 <= t.leaves && l >= 1
    requires c[t.order[t.FirstSon(k)]] == c[t.order[t.FirstSon(k) + 1]] == l
    ensures Fitting(t, c[t.elems + k := l - 1], n, k + 1)
  {
    hide Sum, Pow2, Forest, Standing;
    var d := c[t.elems + k := l - 1];
    NextSons(t, k);
    ForestStep(t, Shares(d, n), k);
    assert Shares(d, n) == Shares(c, n)[t.elems + k := Pow2(n - (l - 1))];
    ForestIgnores(t, Shares(c, n), k, t.elems + k, Pow2(n - (l - 1)));
    Pow2Step(n - (l - 1));
  }

  lemma MergedCost(t: Merging, w: seq<nat>, c: seq<nat>, k: nat, l: nat)
    requires Huffman(t, w) && |c| == |w| && k + 2 <= t.leaves && l >= 1
    requires c[t.order[t.FirstSon(k)]] == c[t.order[t.FirstSon(k) + 1]] == l
    ensures var d := c[t.elems + k := l - 1];
            Sum(Forest(t, Costs(w, c), k)) == Sum(Forest(t, Costs(w, d), k + 1)) + w[t.elems + k]
  {
    hide Sum, Forest, Standing;
    var d, z := c[t.elems + k := l - 1], t.elems + k;
    var x, y := t.order[t.FirstSon(k)], t.order[t.FirstSon(k) + 1];
    NextSons(t, k);
    ForestStep(t, Costs(w, d), k);
    assert Costs(w, d) == Costs(w, c)[z := w[z] * (l - 1)];
    ForestIgnores(t, Costs(w, c), k, z, w[z] * (l - 1));
    assert Weighed(t, w, k);
    assert w[z] * (l - 1) + w[z] == w[z] * l == w[x] * l + w[y] * l by { Products(w[x], w[y], l); }
  }

  lemma Products(a: nat, b: nat, l: nat)
    requires l >= 1
    ensures (a + b) * (l - 1) + (a + b) == (a + b) * l == a * l + b * l
  {
  }

  /** d holds the depths of the nodes in the merge tree. */
  ghost predicate Depths(t: Merging, d: seq<nat>) {
    && t.Ok() && t.elems + t.leaves - 1 <= |d| && d[t.order[0]] == 0
    && forall p :: 1 <= p < |t.order| ==> d[t.order[p]] == d[t.elems + t.Father(p)] + 1
  }

  lemma SonsOf(t: Merging, k: nat)
    requires t.Ok() && k + 2 <= t.leaves
    ensures t.Father(t.FirstSon(k)) == t.Father(t.FirstSon(k) + 1) == k
  {
  }

  /** The depths cost exactly the merges. */
  lemma {:induction false} DepthsCost(t: Merging, w: seq<nat>, d: seq<nat>, k: nat)
    requires Huffman(t, w) && |d| == |w| && Depths(t, d) && k < t.leaves
    ensures Sum(Forest(t, Costs(w, d), k)) == Paid(t, w, k)
    decreases t.leaves - k
  {
    hide Sum, Forest, Standing;
    if k + 2 <= t.leaves {
      DepthsCost(t, w, d, k + 1);
      SonsOf(t, k);
      NextSons(t, k);
      var l := d[t.elems + k] + 1;
      assert d[t.elems + k := l - 1] == d;
      MergedCost(t, w, d, k, l);
    } else {
      OnlyRoot(t, Costs(w, d));
    }
  }

  /** f with 0 for all symbols but those at the first p places. */
  ghost function Masked(t: Merging, f: seq<nat>, p: nat): (r: seq<nat>)
    requires p <= |t.order|
    ensures |r| == |f|
  {
    seq(|f|, i requires 0 <= i < |f| => if i in t.order[..p] then f[i] else 0)
  }

  lemma {:induction false} CostAt(f: seq<nat>, c: seq<nat>, i: nat, x: nat)
    requires |f| == |c| && i < |f| && f[i] == 0
    ensures Cost(f[i := x], c) == Cost(f, c) + x * c[i]
    decreases |f|
  {
    var n := |f| - 1;
    if i == n {
      assert f[i := x][..n] == f[..n];
    } else {
      assert f[i := x][..n] == f[..n][i := x];
      CostAt(f[..n], c[..n], i, x);
    }
  }

  lemma {:induction false} CostNothing(f: seq<nat>, c: seq<nat>)
    requires |f| == |c| && forall i :: 0 <= i < |f| ==> f[i] == 0
    ensures Cost(f, c) == 0
  {
    if f != [] { CostNothing(f[..|f| - 1], c[..|c| - 1]); }
  }

  /** Adding up over the places is adding up over the symbols. */
  lemma {:induction false} LeafCosts(t: Merging, f: seq<nat>, c: seq<nat>, v: seq<nat>, p: nat)
    requires t.Ok() && |f| == |c| == t.elems && t.elems + t.leaves - 1 <= |v| && p <= |t.order|
    requires forall i :: 0 <= i < t.elems ==> v[i] == f[i] * c[i]
    ensures Cost(Masked(t, f, p), c) == Sum(Forest(t, v, 0)[..p])
    decreases p
  {
    hide Cost;
    if p == 0 {
      CostNothing(Masked(t, f, 0), c);
    } else {
      LeafCosts(t, f, c, v, p - 1);
      var s := Forest(t, v, 0);
      assert s[..p][..p - 1] == s[..p - 1];
      var i := t.order[p - 1];
      assert t.order[..p] == t.order[..p - 1] + [i];
      if i < t.elems {
        assert Masked(t, f, p) == Masked(t, f, p - 1)[i := f[i]];
        CostAt(Masked(t, f, p - 1), c, i, f[i]);
      } else {
        assert Masked(t, f, p) == Masked(t, f, p - 1);
      }
    }
  }

  /** The symbols in the tree are those that occur. */
  ghost predicate Carries(t: Merging, f: seq<nat>) {
    |f| == t.elems && forall i :: 0 <= i < |f| ==> (f[i] > 0 <==> i in t.order)
  }

  lemma AllLeafCosts(t: Merging, f: seq<nat>, c: seq<nat>, v: seq<nat>)
    requires t.Ok() && Carries(t, f) && |c| == t.elems && t.elems + t.leaves - 1 <= |v|
    requires forall i :: 0 <= i < t.elems ==> v[i] == f[i] * c[i]
    ensures Cost(f, c) == Sum(Forest(t, v, 0))
  {
    hide Cost, Sum;
    var n := |t.order|;
    LeafCosts(t, f, c, v, n);
    assert t.order[..n] == t.order && Forest(t, v, 0)[..n] == Forest(t, v, 0);
    assert Masked(t, f, n) == f;
  }

  /** 1 for a symbol with a code. */
  ghost function Present(b: seq<nat>): (r: seq<nat>)
    ensures |r| == |b|
  {
    seq(|b|, i requires 0 <= i < |b| => if b[i] > 0 then 1 else 0)
  }

  /** The Kraft sum counts the strings that start with some code. */
  lemma {:induction false} KraftIsCost(b: seq<nat>)
    requires Lengths(b)
    ensures Kraft(b) == Cost(Present(b), Shares(b, MAX_BITS))
  {
    hide First, Pow2, Half, CountOf, Cost;
    if b == [] {
      NoneCounted();
      FirstIsZero(CountsOf(b), MAX_BITS);
      CostNothing(Present(b), Shares(b, MAX_BITS));
    } else {
      var n := |b| - 1;
      KraftIsCost(b[..n]);
      CostLast(Present(b), Shares(b, MAX_BITS));
      assert Present(b)[..n] == Present(b[..n]) && Shares(b, MAX_BITS)[..n] == Shares(b[..n], MAX_BITS);
      KraftLast(b);
    }
  }

  lemma NoneCounted()
    ensures forall k :: 0 <= k <= MAX_BITS ==> CountsOf([])[k] == 0
  {
  }

  lemma CostLast(f: seq<nat>, c: seq<nat>)
    requires |f| == |c| > 0
    ensures Cost(f, c) == Cost(f[..|f| - 1], c[..|c| - 1]) + f[|f| - 1] * c[|c| - 1]
  {
  }

  lemma KraftLast(b: seq<nat>)
    requires Lengths(b) && b != []
    ensures Kraft(b) == Kraft(b[..|b| - 1]) + if b[|b| - 1] > 0 then ShareOf(b[|b| - 1], MAX_BITS) else 0
  {
    hide First, CountOf;
    var n, x := |b| - 1, b[|b| - 1];
    var c, c' := CountsOf(b[..n]), CountsOf(b);
    forall k | 0 <= k <= MAX_BITS ensures c'[k] == c[k] + if k == x then 1 else 0 { CountLast(b, k); }
    if x == 0 {
      FirstSame(c, c', MAX_BITS);
    } else {
      FirstBump(c, x, MAX_BITS);
      FirstSame(c[x := c[x] + 1], c', MAX_BITS);
      LastHalf(x);
    }
  }

  lemma CountLast(b: seq<nat>, k: nat)
    requires b != []
    ensures CountOf(b, k) == CountOf(b[..|b| - 1], k) + if b[|b| - 1] == k then 1 else 0
  {
  }

  lemma LastHalf(x: nat)
    requires 1 <= x <= MAX_BITS
    ensures 2 * Half(MAX_BITS, x) + (if x == MAX_BITS then 1 else 0) == Pow2(MAX_BITS - x)
  {
    if x < MAX_BITS { Pow2Step(MAX_BITS - x); }
  }

  lemma {:induction false} CostLess(f: seq<nat>, f': seq<nat>, c: seq<nat>)
    requires |f| == |f'| == |c| && forall i :: 0 <= i < |f| ==> f[i] <= f'[i]
    ensures Cost(f, c) <= Cost(f', c)
  {
    if f != [] {
      var n := |f| - 1;
      CostLess(f[..n], f'[..n], c[..n]);
      MulMono(f[n], f'[n], c[n]);
    }
  }

  /** A list of lengths that could be a code for symbols that occur f[i] times: all of them
      have a code, and the Kraft sum is at most one. */
  ghost predicate Rival(f: seq<nat>, b: seq<nat>) {
    && |b| == |f| && Lengths(b) && Kraft(b) <= Pow2(MAX_BITS)
    && forall i :: 0 <= i < |f| && f[i] > 0 ==> b[i] > 0
  }

  /** Its lengths fit on the leaves of the merge tree. */
  lemma RivalFits(t: Merging, f: seq<nat>, b: seq<nat>, c: seq<nat>)
    requires t.Ok() && Carries(t, f) && Rival(f, b) && t.elems + t.leaves - 1 <= |c|
    requires forall i :: 0 <= i < |c| ==> c[i] == if i < |b| then b[i] else 0
    ensures Fitting(t, c, MAX_BITS, 0)
  {
    hide Sum, Pow2, Cost, Kraft, Standing, Forest;
    var used := seq(|f|, i requires 0 <= i < |f| => if f[i] > 0 then 1 else 0);
    AllLeafCosts(t, used, Shares(b, MAX_BITS), Masks(used, Shares(c, MAX_BITS)));
    SameForest(t, used, Shares(c, MAX_BITS));
    CostLess(used, Present(b), Shares(b, MAX_BITS));
    KraftIsCost(b);
  }

  /** v on the used symbols. */
  ghost function Masks(used: seq<nat>, v: seq<nat>): (r: seq<nat>)
    ensures |r| == |v|
  {
    seq(|v|, i requires 0 <= i < |v| => if i < |used| then used[i] * v[i] else v[i])
  }

  lemma SameForest(t: Merging, used: seq<nat>, v: seq<nat>)
    requires t.Ok() && Carries(t, used) && t.elems + t.leaves - 1 <= |v|
    requires forall i :: 0 <= i < |used| ==> used[i] <= 1
    ensures Forest(t, Masks(used, v), 0) == Forest(t, v, 0)
  {
    forall p | 0 <= p < |t.order| && t.order[p] < t.elems ensures used[t.order[p]] == 1 {
      assert t.order[p] in t.order;
    }
  }

  /** The depths of the merge tree are a cheapest code. */
  lemma CheapestCode(t: Merging, w: seq<nat>, d: seq<nat>, f: seq<nat>, b: seq<nat>)
    requires Huffman(t, w) && Depths(t, d) && |d| == |w| && Carries(t, f) && Rival(f, b)
    requires forall i :: 0 <= i < t.elems ==> w[i] == f[i]
    ensures Cost(f, d[..t.elems]) <= Cost(f, b)
  {
    hide Sum, Pow2, Cost, Kraft, Forest, Huffman, Fitting, Paid;
    HuffmanIs(t, w);
    var c := seq(|w|, i requires 0 <= i < |w| => if i < |b| then b[i] else 0);
    RivalFits(t, f, b, c);
    LowerBound(t, w, c, MAX_BITS, 0);
    AllLeafCosts(t, f, b, Costs(w, c));
    DepthsCost(t, w, d, 0);
    AllLeafCosts(t, f, d[..t.elems], Costs(w, d));
  }

  lemma Ordered(t: Merging, w: seq<nat>, p: nat, q: nat)
    requires Huffman(t, w) && p <= q < |t.order|
    ensures w[t.order[p]] >= w[t.order[q]]
  {
  }

  lemma SonsWeigh(t: Merging, w: seq<nat>, j: nat)
    requires Huffman(t, w) && j + 2 <= t.leaves
    ensures w[t.elems + j] == w[t.order[t.FirstSon(j)]] + w[t.order[t.FirstSon(j) + 1]]
  {
    assert Weighed(t, w, j);
  }

  /** Of two pairs of sons with a heavier one among the earlier, the father of these is heavier. */
  lemma HeavierFather(t: Merging, w: seq<nat>, p: nat, q: nat)
    requires Huffman(t, w) && 1 <= p < q < |t.order| && w[t.order[p]] > w[t.order[q]]
    ensures t.Father(p) < |t.pos| && t.Father(q) < |t.pos|
    ensures t.Father(p) != t.Father(q) ==> w[t.elems + t.Father(p)] > w[t.elems + t.Father(q)]
  {
    hide Huffman;
    HuffmanIs(t, w);
    t.FatherSeen(p); t.FatherSeen(q);
    var x, y := t.Father(p), t.Father(q);
    SonsWeigh(t, w, x); SonsWeigh(t, w, y);
    var s, u := t.FirstSon(x), t.FirstSon(y);
    if x != y {
      Ordered(t, w, s, p); Ordered(t, w, s + 1, u); Ordered(t, w, u, u + 1);
      if p == s + 1 { Ordered(t, w, q, u + 1); } else { Ordered(t, w, s, s + 1); }
    }
  }

  /** A heavier node is not deeper. */
  lemma {:induction false} HeavierIsHigher(t: Merging, w: seq<nat>, d: seq<nat>, p: nat, q: nat)
    requires Huffman(t, w) && Depths(t, d) && p < |t.order| && q < |t.order|
    requires w[t.order[p]] > w[t.order[q]]
    ensures d[t.order[p]] <= d[t.order[q]]
    decreases p
  {
    hide Huffman;
    HuffmanIs(t, w);
    if q <= p { Ordered(t, w, q, p); }
    if p > 0 {
      HeavierFather(t, w, p, q);
      t.FatherSeen(p); t.FatherSeen(q);
      var x, y := t.Father(p), t.Father(q);
      if x != y {
        assert t.order[t.pos[x]] == t.elems + x && t.order[t.pos[y]] == t.elems + y;
        HeavierIsHigher(t, w, d, t.pos[x], t.pos[y]);
      }
    }
  }

  /** Fibonacci numbers. */
  function Fib(n: nat): nat { if n < 2 then n else Fib(n - 1) + Fib(n - 2) }

  /** The node e levels above place p. */
  ghost function Above(t: Merging, p: nat, e: nat): (r: nat)
    requires t.Ok() && p < |t.order|
    ensures r < |t.order|
    decreases e
  {
    if e == 0 then p else
      var q := Above(t, p, e - 1);
      if q == 0 then 0 else
        t.FatherSeen(q);
        t.pos[t.Father(q)]
  }

  lemma Positive(t: Merging, w: seq<nat>, p: nat)
    requires Huffman(t, w) && p < |t.order|
    ensures w[t.order[p]] > 0
  {
  }

  /** A father outweighs each son. */
  lemma OneSon(t: Merging, w: seq<nat>, p: nat)
    requires Huffman(t, w) && 1 <= p < |t.order|
    ensures t.Father(p) < |t.pos| && t.pos[t.Father(p)] < t.FirstSon(t.Father(p)) <= p
    ensures t.order[t.pos[t.Father(p)]] == t.elems + t.Father(p) && w[t.elems + t.Father(p)] >= w[t.order[p]] + 1
  {
    hide Huffman;
    HuffmanIs(t, w);
    t.FatherSeen(p);
    var x := t.Father(p);
    SonsWeigh(t, w, x);
    Positive(t, w, t.FirstSon(x)); Positive(t, w, t.FirstSon(x) + 1);
  }

  /** A grandfather weighs as much as a son and anyone of the generation below. */
  lemma GrandSons(t: Merging, w: seq<nat>, p: nat)
    requires Huffman(t, w) && 1 <= p < |t.order| && t.Father(p) < |t.pos| && 1 <= t.pos[t.Father(p)] < |t.order|
    ensures var q := t.pos[t.Father(p)];
            w[t.elems + t.Father(q)] >= w[t.order[q]] + w[t.order[p]]
  {
    hide Huffman;
    HuffmanIs(t, w);
    var q := t.pos[t.Father(p)];
    OneSon(t, w, p); OneSon(t, w, q);
    var y := t.Father(q);
    SonsWeigh(t, w, y);
    t.FatherSeen(p); t.FatherSeen(q);
    PairsApart(t, p, q);
    Ordered(t, w, t.FirstSon(y), p); Ordered(t, w, t.FirstSon(y) + 1, p);
  }

  /** A pair of sons with the father of another lies before the other. */
  lemma PairsApart(t: Merging, p: nat, q: nat)
    requires t.Ok() && 1 <= p < |t.order| && 1 <= q < t.FirstSon(t.Father(p)) <= p
    ensures t.FirstSon(t.Father(q)) + 1 < p
  {
  }

  /** A deep leaf makes a heavy tree. */
  lemma {:induction false} FibonacciWeights(t: Merging, w: seq<nat>, d: seq<nat>, p: nat, e: nat)
    requires Huffman(t, w) && Depths(t, d) && p < |t.order| && e <= d[t.order[p]]
    ensures var q := Above(t, p, e); w[t.order[q]] >= Fib(e + 2) && d[t.order[q]] + e == d[t.order[p]]
    decreases e
  {
    hide Huffman, Above;
    AboveIs(t, p, e);
    if e == 0 {
      Positive(t, w, p);
    } else {
      FibonacciWeights(t, w, d, p, e - 1);
      var q := Above(t, p, e - 1);
      assert q >= 1 && d[t.order[q]] == d[t.elems + t.Father(q)] + 1;
      OneSon(t, w, q);
      if e >= 2 {
        FibonacciWeights(t, w, d, p, e - 2);
        AboveIs(t, p, e - 1);
        var r := Above(t, p, e - 2);
        assert r >= 1;
        GrandSons(t, w, r);
      }
    }
  }

  lemma AboveIs(t: Merging, p: nat, e: nat)
    requires t.Ok() && p < |t.order|
    ensures e == 0 ==> Above(t, p, e) == p
    ensures e > 0 && Above(t, p, e - 1) > 0 ==>
              t.Father(Above(t, p, e - 1)) < |t.pos| && Above(t, p, e) == t.pos[t.Father(Above(t, p, e - 1))]
  {
    if e > 0 && Above(t, p, e - 1) > 0 { t.FatherSeen(Above(t, p, e - 1)); }
  }

  /** The depths by node. */
  lemma {:induction false} DepthsOf(t: Merging, n: nat, h: nat) returns (d: seq<nat>)
    requires t.Ok() && t.elems + t.leaves - 1 <= n && h <= |t.order|
    ensures |d| == n && forall p :: 0 <= p < h ==> d[t.order[p]] == t.Depth(p)
    decreases h
  {
    hide Merging.Depth;
    if h == 0 {
      d := seq(n, _ => 0);
    } else {
      d := DepthsOf(t, n, h - 1);
      d := d[t.order[h - 1] := t.Depth(h - 1)];
    }
  }

  lemma RootDepth(t: Merging)
    requires t.Ok()
    ensures t.Depth(0) == 0
  {
  }

  lemma AllDepths(t: Merging, n: nat) returns (d: seq<nat>)
    requires t.Ok() && t.elems + t.leaves - 1 <= n
    ensures |d| == n && Depths(t, d) && forall p :: 0 <= p < |t.order| ==> d[t.order[p]] == t.Depth(p)
  {
    hide Merging.Depth;
    d := DepthsOf(t, n, |t.order|);
    assert d[t.order[0]] == 0 by { RootDepth(t); }
    forall p | 1 <= p < |t.order| ensures d[t.order[p]] == d[t.elems + t.Father(p)] + 1 {
      DepthStep(t, p);
    }
  }

  /** What stands always weighs as much as the root. */
  lemma {:induction false} SameWeight(t: Merging, w: seq<nat>, k: nat)
    requires Huffman(t, w) && k < t.leaves
    ensures Sum(Forest(t, w, k)) == w[t.order[0]]
    decreases t.leaves - k
  {
    hide Sum, Forest, Huffman;
    HuffmanIs(t, w);
    if k + 2 <= t.leaves {
      SameWeight(t, w, k + 1);
      ForestStep(t, w, k);
      SonsWeigh(t, w, k);
    } else {
      OnlyRoot(t, w);
    }
  }

  lemma {:induction false} CostOfOnes(f: seq<nat>, c: seq<nat>)
    requires |f| == |c| && forall i :: 0 <= i < |c| ==> c[i] == 1
    ensures Cost(f, c) == Sum(f)
  {
    if f != [] { CostOfOnes(f[..|f| - 1], c[..|c| - 1]); }
  }

  /** The root weighs as much as all symbols. */
  lemma RootWeight(t: Merging, w: seq<nat>, f: seq<nat>)
    requires Huffman(t, w) && Carries(t, f) && forall i :: 0 <= i < t.elems ==> w[i] == f[i]
    ensures w[t.order[0]] == Sum(f)
  {
    hide Sum, Cost, Forest, Huffman;
    HuffmanIs(t, w);
    var ones: seq<nat> := seq(t.elems, _ => 1);
    AllLeafCosts(t, f, ones, w);
    CostOfOnes(f, ones);
    SameWeight(t, w, 0);
  }

  /** A merge tree of little weight is shallow. */
  lemma LightIsShallow(t: Merging, w: seq<nat>, f: seq<nat>, max: nat)
    requires Huffman(t, w) && Carries(t, f) && forall i :: 0 <= i < t.elems ==> w[i] == f[i]
    requires Sum(f) < Fib(max + 3)
    ensures t.Shallow(max)
  {
    hide Sum, Huffman, Fib, Merging.Depth;
    HuffmanIs(t, w);
    var d := AllDepths(t, |w|);
    forall p | 0 <= p < |t.order| ensures t.Depth(p) <= max {
      if t.Depth(p) > max {
        FibonacciWeights(t, w, d, p, max + 1);
        Ordered(t, w, 0, Above(t, p, max + 1));
        RootWeight(t, w, f);
      }
    }
  }

  lemma {:induction false} CostSplit(f: seq<nat>, c: seq<nat>, e: seq<nat>, ce: seq<nat>)
    requires |f| == |c| == |e| == |ce| && forall i :: 0 <= i < |f| ==> ce[i] == c[i] + e[i]
    ensures Cost(f, ce) == Cost(f, c) + Cost(f, e)
  {
    if f != [] {
      var n := |f| - 1;
      CostSplit(f[..n], c[..n], e[..n], ce[..n]);
      assert f[n] * ce[n] == f[n] * c[n] + f[n] * e[n];
    }
  }

  lemma {:induction false} CostMono(f: seq<nat>, c: seq<nat>, c': seq<nat>)
    requires |f| == |c| == |c'| && forall i :: 0 <= i < |f| && f[i] > 0 ==> c[i] <= c'[i]
    ensures Cost(f, c) <= Cost(f, c')
  {
    if f != [] {
      var n := |f| - 1;
      CostMono(f[..n], c[..n], c'[..n]);
      if f[n] > 0 {
        MulMono(c[n], c'[n], f[n]);
        assert f[n] * c[n] == c[n] * f[n] && f[n] * c'[n] == c'[n] * f[n];
      }
    }
  }

  /** No code for these symbols takes fewer bits than opt, extra bits and all. */
  ghost predicate Cheapest(f: seq<nat>, desc: Desc, opt: int) {
    forall b :: |b| == |f| <= desc.base + |desc.extra| && Rival(f, b) ==> opt <= Cost(f, desc.Bits(b))
  }

  lemma ExtraSplit(f: seq<nat>, desc: Desc, b: seq<nat>)
    requires |f| == |b| <= desc.base + |desc.extra|
    ensures Cost(f, desc.Bits(b)) == Cost(f, b) + Cost(f, desc.Bits(seq(|f|, _ => 0)))
  {
    hide Cost;
    CostSplit(f, b, desc.Bits(seq(|f|, _ => 0)), desc.Bits(b));
  }

  /** The depths of the merge tree as lengths take the fewest bits. */
  lemma DepthsAreCheapest(t: Merging, w: seq<nat>, f: seq<nat>, desc: Desc, len: seq<nat>)
    requires Huffman(t, w) && Carries(t, f) && forall i :: 0 <= i < t.elems ==> w[i] == f[i]
    requires desc.elems == t.elems == |len| <= desc.base + |desc.extra|
    requires forall p :: 0 <= p < |t.order| && t.order[p] < t.elems ==> len[t.order[p]] == t.Depth(p)
    ensures Cheapest(f, desc, Cost(f, desc.Bits(len)))
  {
    hide Cost, Huffman, Rival, Merging.Depth, Desc.Bits;
    HuffmanIs(t, w);
    var d := AllDepths(t, |w|);
    forall b | |b| == |f| <= desc.base + |desc.extra| && Rival(f, b)
      ensures Cost(f, desc.Bits(len)) <= Cost(f, desc.Bits(b))
    {
      CheapestCode(t, w, d, f, b);
      CostAgrees(f, len, d[..t.elems]);
      ExtraSplit(f, desc, b);
      ExtraSplit(f, desc, len);
    }
  }

  lemma RivalSize(f: seq<nat>, b: seq<nat>)
    requires Rival(f, b)
    ensures |b| == |f| && forall i :: 0 <= i < |f| && f[i] > 0 ==> b[i] > 0
  {
  }

  /** With codes of one bit for at most two symbols there is nothing to be saved. */
  lemma OneBitIsCheapest(f: seq<nat>, desc: Desc, len: seq<nat>)
    requires |f| == |len| <= desc.base + |desc.extra| && forall i :: 0 <= i < |len| ==> len[i] <= 1
    ensures Cheapest(f, desc, Cost(f, desc.Bits(len)))
  {
    hide Cost, Rival, Desc.Bits;
    forall b | |b| == |f| <= desc.base + |desc.extra| && Rival(f, b)
      ensures Cost(f, desc.Bits(len)) <= Cost(f, desc.Bits(b))
    {
      RivalSize(f, b);
      CostMono(f, len, b);
      ExtraSplit(f, desc, b);
      ExtraSplit(f, desc, len);
    }
  }
}
