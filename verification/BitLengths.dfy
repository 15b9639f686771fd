/** What the first pass of gen_bitlen in zlib/trees.c keeps: the weights of the leaves seen
    and of the nodes whose sons are still to come add up to a full tree, plus one for every
    length that had to be cut off. */
module BitLengths {
  import opened Arith
  import opened Canonical

  function Sum(s: seq<nat>): nat {
    if s == [] then 0 else Sum(s[..|s| - 1]) + s[|s| - 1]
  }

  lemma {:induction false} SumUpdate(s: seq<nat>, i: nat, v: nat)
    requires i < |s|
    ensures Sum(s[i := v]) + s[i] == Sum(s) + v
    decreases |s|
  {
    var n := |s| - 1;
    if i == n {
      assert s[i := v][..n] == s[..n];
    } else {
      assert s[i := v][..n] == s[..n][i := v];
      SumUpdate(s[..n], i, v);
    }
  }

  lemma {:induction false} SumZero(s: seq<nat>)
    requires forall i :: 0 <= i < |s| ==> s[i] == 0
    ensures Sum(s) == 0
  {
    if s != [] { SumZero(s[..|s| - 1]); }
  }

  /** A Huffman tree as build_tree leaves it in heap[heap_max..]: first the root, then the sons
      of every internal node, in decreasing order of the nodes. The internal nodes have the
      numbers from elems on, and pos says where they are. */
  datatype Merging = Merging(order: seq<nat>, pos: seq<nat>, elems: nat, leaves: nat) {

    ghost predicate Ok() {
      && 2 <= leaves && |order| == 2 * leaves - 1 && |pos| == leaves - 1
      && order[0] == elems + leaves - 2
      && (forall p, q :: 0 <= p < q < |order| ==> order[p] != order[q])
      && (forall p :: 0 <= p < |order| ==> order[p] < elems + leaves - 1)
      && (forall j :: 0 <= j < |pos| ==> pos[j] < FirstSon(j) && order[pos[j]] == elems + j)
    }

    /** The place of the first son of internal node j. */
    function FirstSon(j: nat): nat
      requires j + 2 <= leaves
    {
      2 * (leaves - 2 - j) + 1
    }

    /** The internal node whose son is at place p. */
    function Father(p: nat): nat
      requires 1 <= p <= 2 * leaves - 2
    {
      leaves - 2 - (p - 1) / 2
    }

    /** How many sons of internal node j are still to come at place h, if j has been seen. */
    function Left(j: nat, h: nat): nat
      requires j < |pos| && j + 2 <= leaves
    {
      if pos[j] >= h then 0
      else if h <= FirstSon(j) then 2
      else if h == FirstSon(j) + 1 then 1
      else 0
    }

    /** How far below the root place p is. */
    ghost function Depth(p: nat): nat
      requires Ok() && p < |order|
    {
      if p == 0 then 0 else
        FatherSeen(p);
        Depth(pos[Father(p)]) + 1
    }

    /** No node is more than max below the root. */
    ghost predicate Shallow(max: nat)
      requires Ok()
    {
      forall p :: 0 <= p < |order| ==> Depth(p) <= max
    }

    lemma FatherSeen(h: nat)
      requires Ok() && 1 <= h < |order|
      ensures Father(h) < |pos| && pos[Father(h)] < h
      ensures h == FirstSon(Father(h)) || h == FirstSon(Father(h)) + 1
    {
    }

    lemma LeftStep(h: nat, j: nat)
      requires Ok() && 1 <= h < |order| && j < |pos|
      ensures j != Father(h) && order[h] != elems + j ==> Left(j, h + 1) == Left(j, h)
      ensures j == Father(h) ==> Left(j, h) == Left(j, h + 1) + 1 && order[h] != elems + j
      ensures order[h] == elems + j ==> pos[j] == h && Left(j, h) == 0 && Left(j, h + 1) == 2
    {
      FatherSeen(h);
      if order[h] == elems + j {
        assert pos[j] == h;
      } else {
        assert pos[j] != h;
      }
    }
  }

  /** What each son takes from a father of length x, in units of one string of e bits. */
  function Half(e: nat, x: nat): nat {
    if x < e then Pow2(e - 1 - x) else 0
  }

  /** The weights of the internal nodes at place h. */
  ghost function Weights(t: Merging, len: seq<nat>, h: nat, e: nat): (w: seq<nat>)
    requires t.Ok() && t.elems + t.leaves - 1 <= |len|
    ensures |w| == |t.pos|
  {
    seq(|t.pos|, j requires 0 <= j < |t.pos| => Share(t.Left(j, h), Half(e, len[t.elems + j])))
  }

  function Share(left: nat, half: nat): nat {
    if left == 0 then 0 else if left == 1 then half else 2 * half
  }

  /** One more son at place h, of length b. */
  lemma WeightsStep(t: Merging, len: seq<nat>, h: nat, e: nat, b: nat)
    requires t.Ok() && t.elems + t.leaves - 1 <= |len| && 1 <= h < |t.order|
    ensures var x, n := len[t.elems + t.Father(h)], t.order[h];
            Sum(Weights(t, len[n := b], h + 1, e)) + Half(e, x) ==
            Sum(Weights(t, len, h, e)) + if n < t.elems then 0 else 2 * Half(e, b)
  {
    hide Half, Sum, Merging.Left;
    var n, d := t.order[h], t.Father(h);
    t.FatherSeen(h);
    var w, w' := Weights(t, len, h, e), Weights(t, len[n := b], h + 1, e);
    forall j | 0 <= j < |t.pos|
      ensures j != d && n != t.elems + j ==> w'[j] == w[j]
      ensures j == d ==> w'[j] + Half(e, len[t.elems + d]) == w[j]
      ensures n == t.elems + j ==> w[j] == 0 && w'[j] == 2 * Half(e, b)
    {
      t.LeftStep(h, j);
      LeftRange(t, h, j);
    }
    SumUpdate(w, d, w'[d]);
    if n < t.elems {
      assert w' == w[d := w'[d]];
    } else {
      var c := n - t.elems;
      assert w' == w[d := w'[d]][c := w'[c]];
      SumUpdate(w[d := w'[d]], c, w'[c]);
    }
  }

  lemma LeftRange(t: Merging, h: nat, j: nat)
    requires t.Ok() && j < |t.pos|
    ensures t.Left(j, h) <= 2
  {
  }

  lemma WeightsStart(t: Merging, len: seq<nat>, e: nat)
    requires t.Ok() && t.elems + t.leaves - 1 <= |len| && len[t.order[0]] == 0 && e >= 1
    ensures Sum(Weights(t, len, 1, e)) == Pow2(e)
  {
    hide Sum, Half, Pow2;
    HalfOfAll(e);
    var w, r := Weights(t, len, 1, e), t.leaves - 2;
    assert t.order[t.pos[r]] == t.order[0];
    forall j | 0 <= j < r ensures w[j] == 0 { assert t.pos[j] != 0; }
    SumUpdate(w, r, 0);
    SumZero(w[r := 0]);
  }

  lemma HalfOfAll(e: nat)
    requires e >= 1
    ensures 2 * Half(e, 0) == Pow2(e)
  {
  }

  lemma WeightsEnd(t: Merging, len: seq<nat>, e: nat)
    requires t.Ok() && t.elems + t.leaves - 1 <= |len|
    ensures Sum(Weights(t, len, |t.order|, e)) == 0
  {
    hide Sum;
    SumZero(Weights(t, len, |t.order|, e));
  }

  /** One more code of length k. */
  lemma {:induction false} FirstBump(c: Counts, k: nat, e: nat)
    requires 1 <= k <= MAX_BITS && e <= MAX_BITS + 1
    ensures First(c[k := c[k] + 1], e) == First(c, e) + 2 * Half(e, k)
    decreases e
  {
    if e > 1 { FirstBump(c, k, e - 1); }
  }

  /** The state of the first pass at place h: all lengths before h are set and at most max;
      counts and weights make a full tree, with one half of a string of max bits more for
      every overflow; without the strings of max bits they do not, as soon as there is one. */
  ghost predicate Balanced(t: Merging, len: seq<nat>, h: nat, max: nat, bl: Counts, overflow: nat, deep: bool)
  {
    && t.Ok() && t.elems + t.leaves - 1 <= |len| && 1 <= h <= |t.order| && 1 <= max <= MAX_BITS
    && (forall p :: 0 <= p < h ==> len[t.order[p]] <= max && (len[t.order[p]] == max ==> deep))
    && First(bl, max + 1) + Sum(Weights(t, len, h, max + 1)) == Pow2(max + 1) + overflow
    && First(bl, max) + Sum(Weights(t, len, h, max)) + (if deep then 1 else 0) <= Pow2(max)
    && (overflow > 0 ==> deep)
  }

  lemma BalancedStart(t: Merging, len: seq<nat>, max: nat, bl: Counts)
    requires t.Ok() && t.elems + t.leaves - 1 <= |len| && 1 <= max <= MAX_BITS && len[t.order[0]] == 0
    requires forall k :: 1 <= k <= MAX_BITS ==> bl[k] == 0
    ensures Balanced(t, len, 1, max, bl, 0, false)
  {
    hide Sum, Pow2;
    WeightsStart(t, len, max); WeightsStart(t, len, max + 1);
    FirstIsZero(bl, max); FirstIsZero(bl, max + 1);
  }

  /** The length of a son of a father of length x. */
  function SonLength(x: nat, max: nat): nat { if x + 1 > max then max else x + 1 }

  lemma BalancedStep(t: Merging, len: seq<nat>, h: nat, max: nat, bl: Counts, overflow: nat, deep: bool)
    returns (deep': bool)
    requires Balanced(t, len, h, max, bl, overflow, deep) && h < |t.order|
    ensures t.elems + t.Father(h) < |len| && len[t.elems + t.Father(h)] <= max
    ensures var x, n := len[t.elems + t.Father(h)], t.order[h];
            var b := SonLength(x, max);
            1 <= b <= max &&
            Balanced(t, len[n := b], h + 1, max, if n < t.elems then bl[b := bl[b] + 1] else bl,
                     overflow + (if x + 1 > max then 1 else 0), deep')
  {
    hide Sum, Pow2, Weights, First;
    t.FatherSeen(h);
    var d, n := t.Father(h), t.order[h];
    assert t.order[t.pos[d]] == t.elems + d;
    var x := len[t.elems + d];
    var b := SonLength(x, max);
    deep' := deep || b == max;
    WeightsStep(t, len, h, max, b); WeightsStep(t, len, h, max + 1, b);
    FirstBump(bl, b, max); FirstBump(bl, b, max + 1);
    HalfStep(max, x);
  }

  lemma HalfStep(max: nat, x: nat)
    requires x <= max && max >= 1
    ensures var b := SonLength(x, max);
            && 2 * Half(max + 1, b) == Half(max + 1, x) + (if x + 1 > max then 1 else 0)
            && Half(max, x) == 2 * Half(max, b) + (if x + 1 == max then 1 else 0)
  {
  }

  lemma Doubles(c: Counts, max: nat)
    requires 1 <= max <= MAX_BITS
    ensures First(c, max + 1) == 2 * End(c, max) && Pow2(max + 1) == 2 * Pow2(max)
  {
  }

  /** Behind the first pass: the Kraft sum is one plus half the overflow, which is even, and
      more codes have the greatest length than have to go. */
  lemma BalancedEnd(t: Merging, len: seq<nat>, max: nat, bl: Counts, overflow: nat, deep: bool)
    requires Balanced(t, len, |t.order|, max, bl, overflow, deep)
    ensures overflow % 2 == 0 && End(bl, max) == Pow2(max) + overflow / 2
    ensures overflow > 0 ==> First(bl, max) < Pow2(max)
  {
    hide Sum, Weights, Pow2, First;
    WeightsEnd(t, len, max); WeightsEnd(t, len, max + 1);
    Doubles(bl, max);
  }
}
