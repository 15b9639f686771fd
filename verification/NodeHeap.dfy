/** The heap of tree nodes in zlib/trees.c: pqdownheap. */
module NodeHeap {
  import opened TreeCodes

  const HEAP_SIZE := 573

  /** `smaller`: less frequent, or as frequent and not deeper. */
  predicate Smaller(tree: seq<Node>, depth: seq<nat>, n: nat, m: nat)
    requires n < |tree| <= |depth| && m < |tree|
  {
    tree[n].fc < tree[m].fc || (tree[n].fc == tree[m].fc && depth[n] <= depth[m])
  }

  /** heap[1..len] is the heap, heap[max..] holds the nodes merged so far. */
  predicate Used(i: int, len: nat, max: nat, size: nat) {
    1 <= i <= len || max <= i < size
  }

  /** inv tells the place of every node in the heap; so no node is there twice. */
  ghost predicate Indexed(heap: seq<nat>, inv: seq<nat>, len: nat, max: nat) {
    && |heap| == HEAP_SIZE && len < max <= HEAP_SIZE
    && forall i :: Used(i, len, max, HEAP_SIZE) && 0 <= i < |heap| ==> heap[i] < |inv| && inv[heap[i]] == i
  }

  /** The nodes of heap[1..len] in another order, everything else as it was. */
  ghost predicate Reordered(heap0: seq<nat>, inv0: seq<nat>, heap: seq<nat>, inv: seq<nat>, len: nat) {
    && |heap| == |heap0| > len && |inv| == |inv0|
    && (forall i :: 0 <= i < |heap| && !(1 <= i <= len) ==> heap[i] == heap0[i])
    && (forall x :: 0 <= x < |inv| ==>
          if 1 <= inv0[x] <= len && heap0[inv0[x]] == x then 1 <= inv[x] <= len && heap[inv[x]] == x
          else inv[x] == inv0[x] && (1 <= inv[x] <= len ==> heap[inv[x]] != x))
  }

  lemma SwapReorders(heap0: seq<nat>, inv0: seq<nat>, heap: seq<nat>, inv: seq<nat>, len: nat, max: nat, k: nat, j: nat)
    requires Indexed(heap, inv, len, max) && Reordered(heap0, inv0, heap, inv, len)
    requires 1 <= k <= len && 1 <= j <= len && k != j
    ensures var heap', inv' := heap[k := heap[j]][j := heap[k]], inv[heap[j] := k][heap[k] := j];
            Indexed(heap', inv', len, max) && Reordered(heap0, inv0, heap', inv', len)
  {
  }

  /** Every node from place lo on is smaller than its sons. */
  ghost predicate HeapFrom(tree: seq<Node>, depth: seq<nat>, heap: seq<nat>, len: nat, lo: nat)
    requires |tree| <= |depth| && len < |heap| && forall i :: 1 <= i <= len ==> heap[i] < |tree|
  {
    forall j :: 2 <= j <= len && j / 2 >= lo ==> Smaller(tree, depth, heap[j / 2], heap[j])
  }

  /** The same, but for the node at place k, which is on its way down from k0. */
  ghost predicate Sinking(tree: seq<Node>, depth: seq<nat>, heap: seq<nat>, len: nat, k0: nat, k: nat)
    requires |tree| <= |depth| && len < |heap| && forall i :: 1 <= i <= len ==> heap[i] < |tree|
  {
    && (forall j :: 2 <= j <= len && j / 2 >= k0 && j / 2 != k ==> Smaller(tree, depth, heap[j / 2], heap[j]))
    && (k > k0 ==> k / 2 >= 1 && forall j :: 2 <= j <= len && j / 2 == k ==> Smaller(tree, depth, heap[k / 2], heap[j]))
  }

  lemma SinkStep(tree: seq<Node>, depth: seq<nat>, heap: seq<nat>, len: nat, k0: nat, k: nat, j: nat)
    requires |tree| <= |depth| && len < |heap| && forall i :: 1 <= i <= len ==> heap[i] < |tree|
    requires Sinking(tree, depth, heap, len, k0, k) && 1 <= k0 <= k && (j == 2 * k || j == 2 * k + 1) && j <= len
    requires !Smaller(tree, depth, heap[k], heap[j])
    requires forall i :: 2 <= i <= len && i / 2 == k ==> Smaller(tree, depth, heap[j], heap[i])
    ensures Sinking(tree, depth, heap[k := heap[j]][j := heap[k]], len, k0, j)
  {
    var heap' := heap[k := heap[j]][j := heap[k]];
    forall i | 2 <= i <= len && i / 2 >= k0 && i / 2 != j ensures Smaller(tree, depth, heap'[i / 2], heap'[i]) {
      if i / 2 == k {
        if i == j { assert heap'[i] == heap[k]; }
      } else {
        assert i != j;
        if i == k { assert heap'[i] == heap[j]; }
      }
    }
    assert j / 2 == k;
  }

  /** pqdownheap: moves the node at k0 down until it is smaller than its sons. */
  method PqDownHeap(tree: seq<Node>, depth: seq<nat>, heap0: seq<nat>, len: nat, k0: nat, ghost inv0: seq<nat>,
                    ghost max: nat)
    returns (heap: seq<nat>, ghost inv: seq<nat>)
    requires Indexed(heap0, inv0, len, max) && |inv0| == |tree| <= |depth| && 1 <= k0 <= len
    requires forall i :: 1 <= i <= len ==> heap0[i] < |tree|
    requires HeapFrom(tree, depth, heap0, len, k0 + 1)
    ensures Indexed(heap, inv, len, max) && Reordered(heap0, inv0, heap, inv, len)
    ensures forall i :: 1 <= i <= len ==> heap[i] < |tree|
    ensures HeapFrom(tree, depth, heap, len, k0)
  {
    hide Smaller, Indexed, Reordered, Sinking, HeapFrom;
    heap, inv := heap0, inv0;
    StartDown(tree, depth, heap, inv, len, k0, max);
    var v := heap[k0];
    var k, j := k0, 2 * k0;
    ghost var now := heap;
    while j <= len
      invariant k0 <= k <= len < |heap| && j == 2 * k && now == heap[k := v]
      invariant Indexed(now, inv, len, max) && Reordered(heap0, inv0, now, inv, len)
      invariant forall i :: 1 <= i <= len ==> heap[i] < |tree|
      invariant forall i :: 1 <= i <= len ==> now[i] < |tree|
      invariant |inv| == |tree| && Sinking(tree, depth, now, len, k0, k)
    {
      if j < len && Smaller(tree, depth, heap[j + 1], heap[j]) { j := j + 1; }
      SmallerSon(tree, depth, now, len, k, j);
      if Smaller(tree, depth, v, heap[j]) {
        SunkEnough(tree, depth, now, len, k0, k, j);
        heap := heap[k := v];
        return;
      }
      SwapReorders(heap0, inv0, now, inv, len, max, k, j);
      SinkStep(tree, depth, now, len, k0, k, j);
      inv := inv[now[j] := k][v := j];
      now := now[k := now[j]][j := v];
      heap := heap[k := heap[j]];
      k := j;
      j := 2 * j;
    }
    NoSons(tree, depth, now, len, k0, k);
    heap := heap[k := v];
  }

  lemma StartDown(tree: seq<Node>, depth: seq<nat>, heap: seq<nat>, inv: seq<nat>, len: nat, k0: nat, max: nat)
    requires Indexed(heap, inv, len, max) && |inv| == |tree| <= |depth| && 1 <= k0 <= len
    requires forall i :: 1 <= i <= len ==> heap[i] < |tree|
    requires HeapFrom(tree, depth, heap, len, k0 + 1)
    ensures |heap| == HEAP_SIZE && len < HEAP_SIZE && heap[k0 := heap[k0]] == heap
    ensures Reordered(heap, inv, heap, inv, len) && Sinking(tree, depth, heap, len, k0, k0)
  {
  }

  lemma NoSons(tree: seq<Node>, depth: seq<nat>, heap: seq<nat>, len: nat, k0: nat, k: nat)
    requires |tree| <= |depth| && len < |heap| && forall i :: 1 <= i <= len ==> heap[i] < |tree|
    requires Sinking(tree, depth, heap, len, k0, k) && 2 * k > len
    ensures HeapFrom(tree, depth, heap, len, k0)
  {
  }

  lemma SmallerSon(tree: seq<Node>, depth: seq<nat>, heap: seq<nat>, len: nat, k: nat, j: nat)
    requires |tree| <= |depth| && len < |heap| && forall i :: 1 <= i <= len ==> heap[i] < |tree|
    requires 1 <= k && j <= len
    requires if j == 2 * k then j < len ==> !Smaller(tree, depth, heap[j + 1], heap[j])
             else j == 2 * k + 1 && Smaller(tree, depth, heap[j], heap[j - 1])
    ensures forall i :: 2 <= i <= len && i / 2 == k ==> Smaller(tree, depth, heap[j], heap[i])
  {
  }

  lemma SunkEnough(tree: seq<Node>, depth: seq<nat>, heap: seq<nat>, len: nat, k0: nat, k: nat, j: nat)
    requires |tree| <= |depth| && len < |heap| && forall i :: 1 <= i <= len ==> heap[i] < |tree|
    requires Sinking(tree, depth, heap, len, k0, k) && 1 <= k0 <= k <= len && 1 <= j <= len
    requires Smaller(tree, depth, heap[k], heap[j])
    requires forall i :: 2 <= i <= len && i / 2 == k ==> Smaller(tree, depth, heap[j], heap[i])
    ensures HeapFrom(tree, depth, heap, len, k0)
  {
  }

  /** The first node of a heap is the smallest. */
  lemma {:induction false} RootIsSmallest(tree: seq<Node>, depth: seq<nat>, heap: seq<nat>, len: nat, i: nat)
    requires |tree| <= |depth| && len < |heap| && forall i :: 1 <= i <= len ==> heap[i] < |tree|
    requires HeapFrom(tree, depth, heap, len, 1) && 1 <= i <= len
    ensures Smaller(tree, depth, heap[1], heap[i])
    decreases i
  {
    if i > 1 { RootIsSmallest(tree, depth, heap, len, i / 2); }
  }
}
