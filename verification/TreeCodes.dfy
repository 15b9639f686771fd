/** Assigning codes in zlib/trees.c: gen_codes and bi_reverse. */
module TreeCodes {
  import opened Arith
  import opened BitStrings
  import opened Canonical
  import opened SymbolCodes

  /** ct_data: a tree node. Freq and Code share one field, Dad and Len the other. */
  datatype Node = Node(fc: nat, dl: nat)

  /** The Len fields of the first n nodes. */
  function LensOf(tree: seq<Node>, n: nat): (b: seq<nat>)
    requires n <= |tree|
    ensures |b| == n && forall i :: 0 <= i < n ==> b[i] == tree[i].dl
  {
    seq(n, i requires 0 <= i < n => tree[i].dl)
  }

  /** bi_reverse: the first len bits of a code in reverse. */
  method BiReverse(code0: nat, len0: nat) returns (r: nat)
    requires len0 >= 1
    ensures r == Rev(code0, len0)
  {
    hide Shl, Rev;
    var code, len, res := code0, len0, 0;
    ghost var a := 0;
    ShlZero(len0);
    while len > 0
      invariant res == 2 * a
      invariant Rev(code0, len0) == Shl(a, len) + Rev(code, len)
    {
      var bit := code % 2;
      code := code / 2;
      RevStep(code, bit, len - 1);
      Collect(a, bit, len - 1);
      a := res + bit;
      res := 2 * (res + bit);
      len := len - 1;
    }
    r := res / 2;
    NothingLeft(a, code);
  }

  lemma Collect(a: nat, b: nat, k: nat)
    ensures Shl(a, k + 1) + Shl(b, k) == Shl(2 * a + b, k)
  {
    ShlAdd(2 * a, b, k);
    ShlShl(a, 1, k);
    ShlTwice(a);
  }

  lemma NothingLeft(a: nat, b: nat)
    ensures Shl(a, 0) == a && Rev(b, 0) == 0
  {
  }

  /** gen_codes, the first loop: the first code of every length. */
  method FirstCodes(blCount: Counts) returns (next: seq<nat>)
    requires blCount[0] == 0 && Fits(blCount, MAX_BITS)
    ensures |next| == MAX_BITS + 1
    ensures forall k :: 1 <= k <= MAX_BITS ==> next[k] == First(blCount, k) < 0x10000
  {
    hide Fits;
    next := seq(MAX_BITS + 1, _ => 0);
    var code, bits := 0, 1;
    while bits <= MAX_BITS
      invariant 1 <= bits <= MAX_BITS + 1 && |next| == MAX_BITS + 1
      invariant code == First(blCount, bits - 1)
      invariant forall k :: 1 <= k < bits ==> next[k] == First(blCount, k) < 0x10000
    {
      FirstFits(blCount, bits);
      code := 2 * (code + blCount[bits - 1]);
      next := next[bits := code];
      bits := bits + 1;
    }
  }

  lemma FirstFits(c: Counts, k: nat)
    requires 1 <= k <= MAX_BITS && Fits(c, MAX_BITS)
    ensures First(c, k) < 0x10000
  {
    assert End(c, k) <= Pow2(k);
    Pow2Mono(k, MAX_BITS);
    assert Pow2(MAX_BITS) == 0x8000;
  }

  /** Every symbol that has a length has its canonical code, bits reversed. */
  ghost predicate Coded(tree: seq<Node>, b: seq<nat>)
    requires Lengths(b)
  {
    && |b| <= |tree|
    && forall n :: 0 <= n < |b| && b[n] > 0 ==> tree[n].fc == Rev(CodeOf(b, n), b[n])
  }

  /** gen_codes: assigns the canonical codes for lengths with the counts blCount. */
  method GenCodes(tree0: seq<Node>, maxCode: nat, blCount: Counts) returns (tree: seq<Node>)
    requires maxCode < |tree0| && blCount[0] == 0 && Lengths(LensOf(tree0, maxCode + 1))
    requires forall k :: 1 <= k <= MAX_BITS ==> blCount[k] == CountOf(LensOf(tree0, maxCode + 1), k)
    requires Fits(blCount, MAX_BITS)
    ensures |tree| == |tree0| && forall n :: 0 <= n < |tree| ==> tree[n].dl == tree0[n].dl
    ensures Coded(tree, LensOf(tree0, maxCode + 1))
    ensures forall n :: 0 <= n < |tree| && (n > maxCode || tree0[n].dl == 0) ==> tree[n] == tree0[n]
  {
    hide First, CountOf, Rev, Fits;
    var next := FirstCodes(blCount);
    ghost var b := LensOf(tree0, maxCode + 1);
    tree := tree0;
    var n := 0;
    CountNone();
    assert b[..0] == [];
    while n <= maxCode
      invariant 0 <= n <= maxCode + 1 && |tree| == |tree0| && |next| == MAX_BITS + 1
      invariant forall i :: 0 <= i < |tree| ==> tree[i].dl == tree0[i].dl
      invariant forall i :: 0 <= i < |tree| && (i >= n || tree0[i].dl == 0) ==> tree[i] == tree0[i]
      invariant forall k :: 1 <= k <= MAX_BITS ==> next[k] == First(blCount, k) + CountOf(b[..n], k)
      invariant forall i :: 0 <= i < n && b[i] > 0 ==> tree[i].fc == Rev(CodeOf(b, i), b[i])
    {
      var len := tree[n].dl;
      CountNext(b, n);
      if len != 0 {
        FirstSame(blCount, CountsOf(b), len);
        var code := BiReverse(next[len], len);
        tree := tree[n := tree[n].(fc := code)];
        next := next[len := next[len] + 1];
      }
      n := n + 1;
    }
  }
}
