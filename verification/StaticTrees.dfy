/** The static trees that tr_static_init in zlib/trees.c builds (section 3.2.6 of RFC 1951). */
module StaticTrees {
  import opened Arith
  import opened Canonical
  import opened SymbolCodes
  import opened CopyCodes
  import opened StaticCodes
  import opened TreeCodes
  import opened BlockBody

  /** The lengths of the first n literal codes, counted. */
  ghost predicate Counting(tree: seq<Node>, bl: Counts, n: nat) {
    && n <= |tree| == 288 && (forall i :: 0 <= i < n ==> tree[i].dl == StaticLength(i))
    && (forall k :: 0 <= k <= MAX_BITS ==> bl[k] == CountOf(LensOf(tree, n), k))
  }

  lemma CountOneMore(tree: seq<Node>, bl: Counts, n: nat, len: nat)
    requires Counting(tree, bl, n) && n < 288 && len == StaticLength(n)
    ensures Counting(tree[n := tree[n].(dl := len)], bl[len := bl[len] + 1], n + 1)
  {
    hide CountOf;
    var tree' := tree[n := tree[n].(dl := len)];
    var b := LensOf(tree', n + 1);
    assert b[..n] == LensOf(tree, n);
    assert b[..n + 1] == b;
    CountNext(b, n);
  }

  /** `while (n <= upTo) static_ltree[n++].Len = len, bl_count[len]++`. */
  method Stretch(tree0: seq<Node>, bl0: Counts, n0: nat, upTo: nat, len: nat)
    returns (tree: seq<Node>, bl: Counts, n: nat)
    requires Counting(tree0, bl0, n0) && n0 <= upTo + 1 <= 288 && 7 <= len <= 9 && forall i :: n0 <= i <= upTo ==>
               StaticLength(i) == len
    ensures Counting(tree, bl, n) && n == upTo + 1 && bl == bl0[len := bl0[len] + (upTo + 1 - n0)]
  {
    hide Counting;
    tree, bl, n := tree0, bl0, n0;
    assert bl0[len := bl0[len] + 0] == bl0;
    StretchSize(tree, bl, n);
    while n <= upTo
      invariant n0 <= n <= upTo + 1 && Counting(tree, bl, n) && |tree| == 288 && bl == bl0[len := bl0[len] + (n - n0)]
    {
      CountOneMore(tree, bl, n, len);
      tree, bl, n := tree[n := tree[n].(dl := len)], bl[len := bl[len] + 1], n + 1;
    }
  }

  lemma StretchSize(tree: seq<Node>, bl: Counts, n: nat)
    requires Counting(tree, bl, n)
    ensures |tree| == 288
  {
  }

  /** The static literal tree: imposed lengths, canonical codes. */
  method StaticLtree() returns (tree: seq<Node>)
    ensures TreeFor(tree, StaticL()) && Kraft(StaticL()) == Pow2(MAX_BITS)
  {
    hide Counting, CountOf, Fits, First, Pow2;
    var bl: Counts, n := seq(MAX_BITS + 1, _ => 0), 0;
    tree := seq(288, _ => Node(0, 0));
    StartCounting(tree, bl);
    tree, bl, n := Stretch(tree, bl, n, 143, 8);
    tree, bl, n := Stretch(tree, bl, n, 255, 9);
    tree, bl, n := Stretch(tree, bl, n, 279, 7);
    tree, bl, n := Stretch(tree, bl, n, 287, 8);
    AllCounted(tree, bl);
    FullCounts(bl);
    assert bl == CountsOf(StaticL());
    ghost var was := tree;
    tree := GenCodes(tree, 287, bl);
    assert LensOf(was, 288) == StaticL();
  }

  lemma StartCounting(tree: seq<Node>, bl: Counts)
    requires |tree| == 288 && forall k :: 0 <= k <= MAX_BITS ==> bl[k] == 0
    ensures Counting(tree, bl, 0)
  {
    assert LensOf(tree, 0) == [];
  }

  lemma AllCounted(tree: seq<Node>, bl: Counts)
    requires Counting(tree, bl, 288)
    ensures |tree| == 288 && LensOf(tree, 288) == StaticL() && forall k :: 0 <= k <= MAX_BITS ==>
              bl[k] == CountOf(StaticL(), k)
  {
    hide CountOf;
    assert LensOf(tree, 288) == StaticL();
  }

  lemma FiveBitCode(n: nat)
    requires n < 30
    ensures CodeOf(StaticD(), n) == n
  {
    hide CountOf;
    var b := StaticD();
    forall k | 1 <= k < 5 ensures CountsOf(b)[k] == 0 { CountFives(b, k); }
    FirstIsZero(CountsOf(b), 5);
    CountFives(b[..n], 5);
  }

  /** The static distance tree: five bits for every code. */
  method StaticDtree() returns (tree: seq<Node>)
    ensures TreeFor(tree, StaticD()) && Kraft(StaticD()) <= Pow2(MAX_BITS)
  {
    hide CodeOf, Rev, Kraft, Pow2;
    tree := seq(30, _ => Node(0, 0));
    var n := 0;
    while n < 30
      invariant 0 <= n <= 30 && |tree| == 30
      invariant forall i :: 0 <= i < n ==> tree[i].dl == 5 && tree[i].fc == Rev(CodeOf(StaticD(), i), 5)
    {
      FiveBitCode(n);
      var code := BiReverse(n, 5);
      tree := tree[n := Node(code, 5)];
      n := n + 1;
    }
    StaticDFits();
  }
}
