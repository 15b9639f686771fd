/** build_tree in zlib/trees.c: a Huffman tree for the symbols that occur, by merging the two
    least frequent nodes until one is left. */
module TreeBuilding {
  import opened Arith
  import opened Canonical
  import opened SymbolCodes
  import opened TreeCodes
  import opened BitLengths
  import opened TreeLengths
  import opened NodeHeap
  import opened HuffmanCost

  const L_CODES := 286

  /** A symbol that occurs, or an internal node made already. */
  predicate Live(tree: seq<Node>, elems: nat, node: nat, x: nat)
    requires x < |tree|
  {
    (x < elems && tree[x].fc > 0) || elems <= x < node
  }

  /** The state of build_tree with internal nodes up to node made from `leaves` symbols. Every
      live node is in the heap or behind max, once; held is on its way there, if it is a node.
      Behind max there are the two sons of every internal node, the later behind the earlier,
      and every internal node is before its sons. */
  ghost predicate Grown(tree: seq<Node>, heap: seq<nat>, inv: seq<nat>, len: nat, max: nat, elems: nat, leaves: nat,
                        node: nat, held: int)
  {
    && Indexed(heap, inv, len, max) && |inv| == |tree| && elems <= node <= elems + leaves - 1 <= |tree| &&
       leaves <= elems <= L_CODES
    && len + (node - elems) + (if held >= 0 then 1 else 0) == leaves && max + 2 * (node - elems) == HEAP_SIZE
    && held < |tree| && (held >= 0 ==> inv[held] == max - 1 && Live(tree, elems, node, held))
    && (forall x :: 0 <= x < |tree| && Live(tree, elems, node, x) && x != held ==>
          Used(inv[x], len, max, HEAP_SIZE) && heap[inv[x]] == x)
    && (forall i :: 0 <= i < HEAP_SIZE && Used(i, len, max, HEAP_SIZE) ==> Live(tree, elems, node, heap[i]))
    && (forall i :: max <= i < HEAP_SIZE ==> tree[heap[i]].dl == elems + (HEAP_SIZE - 1 - i) / 2)
    && (forall x :: elems <= x < node ==> inv[x] + 2 + 2 * (x - elems) < HEAP_SIZE)
    && (forall x :: 0 <= x < elems && tree[x].fc == 0 ==> tree[x].dl == 0)
  }

  lemma HeapNodes(tree: seq<Node>, heap: seq<nat>, inv: seq<nat>, len: nat, max: nat, elems: nat, leaves: nat,
                  node: nat, held: int)
    requires Grown(tree, heap, inv, len, max, elems, leaves, node, held)
    ensures |heap| == HEAP_SIZE && len < max <= HEAP_SIZE && |inv| == |tree|
    ensures forall i :: 1 <= i <= len ==> heap[i] < |tree| && heap[i] < node
  {
    forall i | 1 <= i <= len ensures heap[i] < |tree| && heap[i] < node {
      assert Used(i, len, max, HEAP_SIZE);
    }
  }

  /** Reordering the heap changes nothing else. */
  lemma ReorderedGrown(tree: seq<Node>, heap: seq<nat>, inv: seq<nat>, heap': seq<nat>, inv': seq<nat>, len: nat,
                       max: nat,
                       elems: nat, leaves: nat, node: nat, held: int)
    requires Grown(tree, heap, inv, len, max, elems, leaves, node, held)
    requires Indexed(heap', inv', len, max) && Reordered(heap, inv, heap', inv', len)
    ensures Grown(tree, heap', inv', len, max, elems, leaves, node, held)
  {
    forall i | 0 <= i < HEAP_SIZE && Used(i, len, max, HEAP_SIZE) ensures Live(tree, elems, node, heap'[i]) {
      var x := heap'[i];
      assert inv'[x] == i;
      if 1 <= i <= len { assert 1 <= inv[x] <= len && heap[inv[x]] == x; assert Used(inv[x], len, max, HEAP_SIZE); }
    }
  }

  /** Taking the first node out of the heap, with the last one in its place. */
  lemma TakeFirst(tree: seq<Node>, heap: seq<nat>, inv: seq<nat>, len: nat, max: nat, elems: nat, leaves: nat,
                  node: nat)
    requires Grown(tree, heap, inv, len, max, elems, leaves, node, -1) && len >= 2
    ensures Grown(tree, heap[1 := heap[len]], inv[heap[len] := 1][heap[1] := max - 1], len - 1, max, elems, leaves,
            node, heap[1])
  {
    assert Used(1, len, max, HEAP_SIZE) && Used(len, len, max, HEAP_SIZE);
    assert inv[heap[1]] == 1 && inv[heap[len]] == len;
  }

  lemma LastOnTop(tree: seq<Node>, depth: seq<nat>, heap: seq<nat>, len: nat)
    requires 2 <= len < |heap| && |tree| <= |depth| && (forall i :: 1 <= i <= len ==> heap[i] < |tree|) &&
             HeapFrom(tree, depth, heap, len, 1)
    ensures var h := heap[1 := heap[len]];
            (forall i :: 1 <= i <= len - 1 ==> h[i] < |tree|) && HeapFrom(tree, depth, h, len - 1, 2)
  {
  }

  /** pqremove: takes the smallest node out of the heap. */
  method PqRemove(tree: seq<Node>, depth: seq<nat>, heap0: seq<nat>, len0: nat, ghost inv0: seq<nat>, ghost max: nat,
                  ghost elems: nat, ghost leaves: nat, ghost node: nat)
    returns (top: nat, heap: seq<nat>, len: nat, ghost inv: seq<nat>)
    requires Grown(tree, heap0, inv0, len0, max, elems, leaves, node, -1) && len0 >= 2 && |tree| <= |depth|
    requires (forall i :: 1 <= i <= len0 ==> heap0[i] < |tree|) && HeapFrom(tree, depth, heap0, len0, 1)
    ensures len == len0 - 1 && Grown(tree, heap, inv, len, max, elems, leaves, node, top)
    ensures (forall i :: 1 <= i <= len ==> heap[i] < |tree|) && HeapFrom(tree, depth, heap, len, 1)
    ensures |heap| == |heap0| && forall i :: max <= i < |heap| ==> heap[i] == heap0[i]
    ensures top < |tree| && top == heap0[1] && forall i :: 1 <= i <= len0 ==> Smaller(tree, depth, top, heap0[i])
  {
    hide Grown, HeapFrom, Smaller, Indexed, Reordered;
    HeapNodes(tree, heap0, inv0, len0, max, elems, leaves, node, -1);
    forall i | 1 <= i <= len0
      ensures Smaller(tree, depth, heap0[1], heap0[i]) { RootIsSmallest(tree, depth, heap0, len0, i); }
    TakeFirst(tree, heap0, inv0, len0, max, elems, leaves, node);
    LastOnTop(tree, depth, heap0, len0);
    top := heap0[1];
    heap, len := heap0[1 := heap0[len0]], len0 - 1;
    inv := inv0[heap0[len0] := 1][top := max - 1];
    IndexedOf(tree, heap, inv, len, max, elems, leaves, node, top);
    ghost var heap1, inv1 := heap, inv;
    heap, inv := PqDownHeap(tree, depth, heap, len, 1, inv, max);
    ReorderedGrown(tree, heap1, inv1, heap, inv, len, max, elems, leaves, node, top);
    RestStays(heap1, inv1, heap, inv, len);
  }

  lemma RestStays(heap0: seq<nat>, inv0: seq<nat>, heap: seq<nat>, inv: seq<nat>, len: nat)
    requires Reordered(heap0, inv0, heap, inv, len)
    ensures |heap| == |heap0| && forall i :: len < i < |heap| ==> heap[i] == heap0[i]
  {
  }

  /** What was in the heap is still there, without the node taken out. */
  lemma StillThere(tree: seq<Node>, heap0: seq<nat>, inv0: seq<nat>, heap: seq<nat>, inv: seq<nat>, len: nat, max: nat,
                   elems: nat, leaves: nat, node: nat, top: nat, i: nat)
    requires Grown(tree, heap0, inv0, len + 1, max, elems, leaves, node, -1) &&
             Grown(tree, heap, inv, len, max, elems, leaves, node, top)
    requires forall i :: max <= i < |heap| ==> heap[i] == heap0[i]
    requires 1 <= i <= len + 1 && heap0[i] != top
    ensures heap0[i] < |inv| && 1 <= inv[heap0[i]] <= len && heap[inv[heap0[i]]] == heap0[i]
  {
    assert Used(i, len + 1, max, HEAP_SIZE);
    var x := heap0[i];
    assert Used(inv[x], len, max, HEAP_SIZE) && heap[inv[x]] == x;
  }

  lemma IndexedOf(tree: seq<Node>, heap: seq<nat>, inv: seq<nat>, len: nat, max: nat, elems: nat, leaves: nat,
                  node: nat, held: int)
    requires Grown(tree, heap, inv, len, max, elems, leaves, node, held)
    ensures Indexed(heap, inv, len, max) && elems <= node <= |tree|
  {
  }

  /** The father of n and m. */
  function Joined(tree: seq<Node>, node: nat, n: nat, m: nat): (r: seq<Node>)
    requires node < |tree| && n < |tree| && m < |tree|
  {
    var t := tree[node := tree[node].(fc := tree[n].fc + tree[m].fc)];
    var t' := t[n := t[n].(dl := node)];
    t'[m := t'[m].(dl := node)]
  }

  lemma JoinedIs(tree: seq<Node>, node: nat, n: nat, m: nat)
    requires n < node < |tree| && m < node
    ensures var r := Joined(tree, node, n, m);
            && |r| == |tree|
            && forall x :: 0 <= x < |tree| ==>
                 && r[x].fc == (if x == node then tree[n].fc + tree[m].fc else tree[x].fc)
                 && r[x].dl == (if x == n || x == m then node else tree[x].dl)
  {
  }

  /** What JoinTwo starts from, and what it makes of it. */
  ghost predicate Joining(tree: seq<Node>, heap: seq<nat>, inv: seq<nat>, len: nat, max: nat, elems: nat, leaves: nat,
                          node: nat, n: nat,
                          tree': seq<Node>, heap': seq<nat>, inv': seq<nat>)
  {
    && Grown(tree, heap, inv, len, max, elems, leaves, node, n) && len >= 1 && max >= len + 3
    && n < node < elems + leaves - 1 && heap[1] < node && n != heap[1] && inv[heap[1]] == 1
    && tree' == Joined(tree, node, n, heap[1])
    && heap' == heap[max - 1 := n][max - 2 := heap[1]][1 := node]
    && inv' == inv[heap[1] := max - 2][node := 1]
  }

  lemma JoinPlaces(tree: seq<Node>, heap: seq<nat>, inv: seq<nat>, len: nat, max: nat, elems: nat, leaves: nat,
                   node: nat, n: nat,
                   tree': seq<Node>, heap': seq<nat>, inv': seq<nat>, i: nat)
    requires Joining(tree, heap, inv, len, max, elems, leaves, node, n, tree', heap', inv')
    requires i < HEAP_SIZE && Used(i, len, max - 2, HEAP_SIZE)
    ensures |tree'| == |tree| && |heap'| == HEAP_SIZE && |inv'| == |inv|
    ensures heap'[i] < |tree| && Live(tree', elems, node + 1, heap'[i]) && inv'[heap'[i]] == i
    ensures i >= max - 2 ==> tree'[heap'[i]].dl == elems + (HEAP_SIZE - 1 - i) / 2
  {
    hide Joined;
    JoinedIs(tree, node, n, heap[1]);
    if i != 1 && i != max - 1 && i != max - 2 { assert Used(i, len, max, HEAP_SIZE); }
  }

  lemma JoinNodes(tree: seq<Node>, heap: seq<nat>, inv: seq<nat>, len: nat, max: nat, elems: nat, leaves: nat,
                  node: nat, n: nat,
                  tree': seq<Node>, heap': seq<nat>, inv': seq<nat>, x: nat)
    requires Joining(tree, heap, inv, len, max, elems, leaves, node, n, tree', heap', inv')
    requires x < |tree| <= |tree'| && Live(tree', elems, node + 1, x)
    ensures |heap'| == HEAP_SIZE && |inv'| == |inv| && inv'[x] < HEAP_SIZE && Used(inv'[x], len, max - 2, HEAP_SIZE) &&
            heap'[inv'[x]] == x
    ensures x >= elems ==> inv'[x] + 2 + 2 * (x - elems) < HEAP_SIZE
  {
    hide Joined;
    JoinedIs(tree, node, n, heap[1]);
    if x != n && x != heap[1] && x != node {
      assert Live(tree, elems, node, x);
      assert Used(inv[x], len, max, HEAP_SIZE) && heap[inv[x]] == x;
    }
  }

  lemma JoinTwo(tree: seq<Node>, heap: seq<nat>, inv: seq<nat>, len: nat, max: nat, elems: nat, leaves: nat, node: nat,
                n: nat)
    requires Grown(tree, heap, inv, len, max, elems, leaves, node, n) && len >= 1 && node < elems + leaves - 1
    ensures n < node && heap[1] < node && n != heap[1] && max >= len + 3
    ensures Grown(Joined(tree, node, n, heap[1]), heap[max - 1 := n][max - 2 := heap[1]][1 := node],
                  inv[heap[1] := max - 2][node := 1], len, max - 2, elems, leaves, node + 1, -1)
  {
    hide Joined, Used;
    JoinStart(tree, heap, inv, len, max, elems, leaves, node, n);
    var m := heap[1];
    JoinedIs(tree, node, n, m);
    var tree', heap', inv' :=
        Joined(tree, node, n, m), heap[max - 1 := n][max - 2 := m][1 := node], inv[m := max - 2][node := 1];
    forall i | 0 <= i < HEAP_SIZE && Used(i, len, max - 2, HEAP_SIZE)
      ensures heap'[i] < |inv'| && Live(tree', elems, node + 1, heap'[i]) && inv'[heap'[i]] == i
    {
      JoinPlaces(tree, heap, inv, len, max, elems, leaves, node, n, tree', heap', inv', i);
    }
    forall x | 0 <= x < |tree| && Live(tree', elems, node + 1, x)
      ensures inv'[x] < HEAP_SIZE && Used(inv'[x], len, max - 2, HEAP_SIZE) && heap'[inv'[x]] == x
    {
      JoinNodes(tree, heap, inv, len, max, elems, leaves, node, n, tree', heap', inv', x);
    }
    forall i | max - 2 <= i < HEAP_SIZE
      ensures heap'[i] < |tree'| && tree'[heap'[i]].dl == elems + (HEAP_SIZE - 1 - i) / 2
    {
      BehindMax(i, len, max - 2);
      JoinPlaces(tree, heap, inv, len, max, elems, leaves, node, n, tree', heap', inv', i);
    }
    forall x | elems <= x < node + 1 && x < |tree| ensures inv'[x] + 2 + 2 * (x - elems) < HEAP_SIZE {
      JoinNodes(tree, heap, inv, len, max, elems, leaves, node, n, tree', heap', inv', x);
    }
  }

  lemma BehindMax(i: nat, len: nat, max: nat)
    requires max <= i < HEAP_SIZE
    ensures Used(i, len, max, HEAP_SIZE)
  {
  }

  lemma JoinStart(tree: seq<Node>, heap: seq<nat>, inv: seq<nat>, len: nat, max: nat, elems: nat, leaves: nat,
                  node: nat, n: nat)
    requires Grown(tree, heap, inv, len, max, elems, leaves, node, n) && len >= 1 && node < elems + leaves - 1
    ensures n < node && heap[1] < node && n != heap[1] && max >= len + 3 && inv[heap[1]] == 1 &&
            Live(tree, elems, node, heap[1])
  {
    assert Used(1, len, max, HEAP_SIZE);
  }

  lemma JoinedHeap(tree: seq<Node>, depth: seq<nat>, heap: seq<nat>, heap': seq<nat>, len: nat, node: nat, n: nat,
                   m: nat, d: nat)
    requires 1 <= len < |heap| == |heap'| && |tree| <= |depth| && node < |tree| && n < node && m < node
    requires forall i :: 1 <= i <= len ==> heap[i] < node
    requires HeapFrom(tree, depth, heap, len, 1) && heap'[1] == node && forall i :: 2 <= i <= len ==>
               heap'[i] == heap[i]
    ensures forall i :: 1 <= i <= len ==> heap'[i] < |tree|
    ensures HeapFrom(Joined(tree, node, n, m), depth[node := d], heap', len, 2)
  {
  }

  /** Of the nodes in the heap n is one of the least frequent, and of these one of the lowest trees;
      but for the node x. */
  ghost predicate Least(tree: seq<Node>, depth: seq<nat>, heap: seq<nat>, len: nat, n: nat, x: nat)
    requires n < |tree| <= |depth| && len < |heap| && forall i :: 1 <= i <= len ==> heap[i] < |tree|
  {
    forall i :: 1 <= i <= len && heap[i] != x ==>
      tree[n].fc < tree[heap[i]].fc || (tree[n].fc == tree[heap[i]].fc && depth[n] <= depth[heap[i]])
  }

  lemma SmallerIsLeast(tree: seq<Node>, depth: seq<nat>, heap: seq<nat>, len: nat, n: nat, x: nat)
    requires n < |tree| <= |depth| && len < |heap| && forall i :: 1 <= i <= len ==> heap[i] < |tree|
    requires forall i :: 1 <= i <= len && heap[i] != x ==> Smaller(tree, depth, n, heap[i])
    ensures Least(tree, depth, heap, len, n, x)
  {
  }

  /** One round of the merging loop: the two least frequent nodes become sons of a new node that is
      as frequent as both, and higher than both. */
  method Merge(tree0: seq<Node>, depth0: seq<nat>, heap0: seq<nat>, len0: nat, max0: nat, ghost inv0: seq<nat>,
               ghost elems: nat, ghost leaves: nat, node: nat)
    returns (tree: seq<Node>, depth: seq<nat>, heap: seq<nat>, len: nat, max: nat, ghost inv: seq<nat>, n: nat, m: nat)
    requires Grown(tree0, heap0, inv0, len0, max0, elems, leaves, node, -1) && len0 >= 2 && |tree0| <= |depth0|
    requires (forall i :: 1 <= i <= len0 ==> heap0[i] < |tree0|) && HeapFrom(tree0, depth0, heap0, len0, 1)
    ensures len == len0 - 1 && |tree| == |tree0| <= |depth|
    ensures Grown(tree, heap, inv, len, max, elems, leaves, node + 1, -1)
    ensures (forall i :: 1 <= i <= len ==> heap[i] < |tree|) && HeapFrom(tree, depth, heap, len, 1)
    ensures 1 <= inv[node] <= len && heap[inv[node]] == node
    ensures node < |tree0| && n < node && m < node && n != m && tree == Joined(tree0, node, n, m)
    ensures len0 < |heap0| && Least(tree0, depth0, heap0, len0, n, n) && Least(tree0, depth0, heap0, len0, m, n)
    ensures depth == depth0[node := Max(depth0[n], depth0[m]) + 1]
    ensures max + 2 == max0 <= |heap0| == |heap| && heap[max] == m && heap[max + 1] == n
    ensures forall i :: max0 <= i < |heap| ==> heap[i] == heap0[i]
  {
    hide Grown, HeapFrom, Smaller, Indexed, Reordered, Joined, Least;
    HeapNodes(tree0, heap0, inv0, len0, max0, elems, leaves, node, -1);
    n, heap, len, inv := PqRemove(tree0, depth0, heap0, len0, inv0, max0, elems, leaves, node);
    HeapNodes(tree0, heap, inv, len, max0, elems, leaves, node, n);
    m := heap[1];
    forall i | 1 <= i <= len0 && heap0[i] != n ensures Smaller(tree0, depth0, m, heap0[i]) {
      StillThere(tree0, heap0, inv0, heap, inv, len, max0, elems, leaves, node, n, i);
      RootIsSmallest(tree0, depth0, heap, len, inv[heap0[i]]);
    }
    SmallerIsLeast(tree0, depth0, heap0, len0, n, n);
    SmallerIsLeast(tree0, depth0, heap0, len0, m, n);
    NodesLeft(tree0, heap, inv, len, max0, elems, leaves, node, n);
    JoinTwo(tree0, heap, inv, len, max0, elems, leaves, node, n);
    ghost var heap1 := heap;
    heap := heap[max0 - 1 := n];
    heap := heap[max0 - 2 := m];
    max := max0 - 2;
    tree := Joined(tree0, node, n, m);
    depth := depth0[node := Max(depth0[n], depth0[m]) + 1];
    JoinedIs(tree0, node, n, m);
    inv := inv[m := max][node := 1];
    heap := heap[1 := node];
    JoinedHeap(tree0, depth0, heap1, heap, len, node, n, m, depth[node]);
    ghost var heap2, inv2 := heap, inv;
    IndexedOf(tree, heap, inv, len, max, elems, leaves, node + 1, -1);
    heap, inv := PqDownHeap(tree, depth, heap, len, 1, inv, max);
    ReorderedGrown(tree, heap2, inv2, heap, inv, len, max, elems, leaves, node + 1, -1);
    StillInHeap(heap2, inv2, heap, inv, len, node);
    RestStays(heap2, inv2, heap, inv, len);
  }

  lemma StillInHeap(heap0: seq<nat>, inv0: seq<nat>, heap: seq<nat>, inv: seq<nat>, len: nat, x: nat)
    requires Reordered(heap0, inv0, heap, inv, len) && x < |inv0| && 1 <= inv0[x] <= len && heap0[inv0[x]] == x
    ensures |inv| == |inv0| && |heap| == |heap0| && 1 <= inv[x] <= len && heap[inv[x]] == x
  {
  }

  lemma NodesLeft(tree: seq<Node>, heap: seq<nat>, inv: seq<nat>, len: nat, max: nat, elems: nat, leaves: nat,
                  node: nat, n: nat)
    requires Grown(tree, heap, inv, len, max, elems, leaves, node, n) && len >= 1
    ensures node < elems + leaves - 1 && node < |tree|
  {
  }

  /** The heap while symbols are collected: the first n symbols have been looked at. */
  ghost predicate Collected(tree: seq<Node>, heap: seq<nat>, inv: seq<nat>, len: nat, elems: nat, n: nat,
                            maxCode: int) {
    && |heap| == HEAP_SIZE && len <= n <= elems <= L_CODES && elems <= |tree| == |inv|
    && -1 <= maxCode < n && (maxCode >= 0 <==> len > 0)
    && (forall i :: 1 <= i <= len ==> heap[i] < n && heap[i] <= maxCode && inv[heap[i]] == i && tree[heap[i]].fc > 0)
    && (forall x :: 0 <= x < n ==> if tree[x].fc > 0 then 1 <= inv[x] <= len && heap[inv[x]] == x else tree[x].dl == 0)
    && (maxCode >= 0 ==> tree[maxCode].fc > 0)
  }

  /** build_tree, the first loop: the symbols that occur. */
  method CollectUsed(tree0: seq<Node>, depth0: seq<nat>, elems: nat)
    returns (tree: seq<Node>, depth: seq<nat>, heap: seq<nat>, len: nat, maxCode: int, ghost inv: seq<nat>)
    requires elems <= L_CODES && elems <= |tree0| <= |depth0|
    ensures Collected(tree, heap, inv, len, elems, elems, maxCode)
    ensures |tree| == |tree0| && |depth| == |depth0| && forall i :: 0 <= i < |tree| ==> tree[i].fc == tree0[i].fc
  {
    tree, depth, heap, len, maxCode, inv := tree0, depth0, seq(HEAP_SIZE, _ => 0), 0, -1, seq(|tree0|, _ => 0);
    var n := 0;
    while n < elems
      invariant 0 <= n <= elems && Collected(tree, heap, inv, len, elems, n, maxCode)
      invariant |tree| == |tree0| && |depth| == |depth0| && forall i :: 0 <= i < |tree| ==> tree[i].fc == tree0[i].fc
    {
      if tree[n].fc != 0 {
        len := len + 1;
        heap, maxCode, depth := heap[len := n], n, depth[n := 0];
        inv := inv[n := len];
      } else {
        tree := tree[n := tree[n].(dl := 0)];
      }
      n := n + 1;
    }
  }

  /** The frequencies f with those of the symbols xs raised to 1. */
  ghost function Forced(f: seq<nat>, xs: seq<nat>): (r: seq<nat>)
    requires forall i :: 0 <= i < |xs| ==> xs[i] < |f|
    ensures |r| == |f|
  {
    if xs == [] then f else Forced(f, xs[..|xs| - 1])[xs[|xs| - 1] := 1]
  }

  function SumAt(c: seq<nat>, xs: seq<nat>): nat
    requires forall i :: 0 <= i < |xs| ==> xs[i] < |c|
  {
    if xs == [] then 0 else SumAt(c, xs[..|xs| - 1]) + c[xs[|xs| - 1]]
  }

  /** The symbols xs have been forced: they did not occur and now do once; opt and stat are
      less by one bit for each, and by their static lengths. */
  ghost predicate ForcedTo(tree0: seq<Node>, tree: seq<Node>, desc: Desc, xs: seq<nat>, opt: int, stat: int) {
    && |tree| == |tree0| >= desc.elems >= 3 && (desc.stree == [] || |desc.stree| >= desc.elems)
    && (forall i :: 0 <= i < |xs| ==> xs[i] < 3 && tree0[xs[i]].fc == 0 && tree[xs[i]].fc == 1)
    && (forall i, j :: 0 <= i < j < |xs| ==> xs[i] != xs[j])
    && (forall x :: 0 <= x < desc.elems && tree[x].fc == 0 ==> tree0[x].fc == 0)
    && FreqsOf(tree, desc.elems) == Forced(FreqsOf(tree0, desc.elems), xs)
    && opt + |xs| == 0 && (desc.stree != [] ==> stat + SumAt(desc.stree, xs) == 0)
  }

  lemma ForceNone(tree0: seq<Node>, tree: seq<Node>, desc: Desc)
    requires |tree| == |tree0| >= desc.elems >= 3 && (desc.stree == [] || |desc.stree| >= desc.elems)
    requires forall i :: 0 <= i < |tree| ==> tree[i].fc == tree0[i].fc
    ensures ForcedTo(tree0, tree, desc, [], 0, 0)
  {
    assert FreqsOf(tree, desc.elems) == FreqsOf(tree0, desc.elems);
  }

  lemma ForceOne(tree0: seq<Node>, tree: seq<Node>, desc: Desc, xs: seq<nat>, opt: int, stat: int, x: nat)
    requires ForcedTo(tree0, tree, desc, xs, opt, stat) && x < 3 && tree[x].fc == 0
    ensures ForcedTo(tree0, tree[x := tree[x].(fc := 1)], desc, xs + [x], opt - 1, if desc.stree == [] then stat
            else stat - desc.stree[x])
  {
    hide Cost, Sum, Pow2, Desc.Bits, Huffman;
    var tree', xs' := tree[x := tree[x].(fc := 1)], xs + [x];
    assert FreqsOf(tree', desc.elems) == FreqsOf(tree, desc.elems)[x := 1];
    assert xs'[..|xs|] == xs;
  }

  lemma CollectOne(tree: seq<Node>, heap: seq<nat>, inv: seq<nat>, len: nat, elems: nat, maxCode: int, node: nat)
    requires Collected(tree, heap, inv, len, elems, elems, maxCode) && node < elems && tree[node].fc == 0 && len < elems
    ensures Collected(tree[node := tree[node].(fc := 1)], heap[len + 1 := node], inv[node := len + 1], len + 1, elems,
            elems,
                      Max(maxCode, node))
  {
  }

  /** build_tree: at least two codes, so that at least one bit is sent. What they will cost is
      taken off the lengths in advance. */
  method ForceTwo(tree0: seq<Node>, depth0: seq<nat>, heap0: seq<nat>, len0: nat, maxCode0: int, ghost inv0: seq<nat>,
                  desc: Desc)
    returns (tree: seq<Node>, depth: seq<nat>, heap: seq<nat>, len: nat, maxCode: nat, opt: int, stat: int,
             ghost inv: seq<nat>, ghost forced: seq<nat>)
    requires Collected(tree0, heap0, inv0, len0, desc.elems, desc.elems, maxCode0) && |tree0| <= |depth0|
    requires desc.elems >= 3 && (desc.stree == [] || |desc.stree| >= desc.elems)
    ensures Collected(tree, heap, inv, len, desc.elems, desc.elems, maxCode)
    ensures len == Max(2, len0) == len0 + |forced| && |depth| == |depth0|
    ensures ForcedTo(tree0, tree, desc, forced, opt, stat)
  {
    hide Collected, ForcedTo;
    tree, depth, heap, len, inv, forced, opt, stat := tree0, depth0, heap0, len0, inv0, [], 0, 0;
    var max := maxCode0;
    ForceNone(tree0, tree0, desc) by { CollectedSizes(tree, heap, inv, len, desc.elems, max); }
    while len < 2
      invariant Collected(tree, heap, inv, len, desc.elems, desc.elems, max)
      invariant len <= Max(2, len0) && len == len0 + |forced| && |depth| == |depth0|
      invariant ForcedTo(tree0, tree, desc, forced, opt, stat)
    {
      CollectedSizes(tree, heap, inv, len, desc.elems, max);
      FreeNode(tree, heap, inv, len, desc.elems, max, if max < 2 then max + 1 else 0);
      len := len + 1;
      ghost var max0 := max;
      var node: nat;
      if max < 2 {
        max := max + 1;
        node := max;
      } else {
        node := 0;
      }
      ForceOne(tree0, tree, desc, forced, opt, stat, node);
      CollectOne(tree, heap, inv, len - 1, desc.elems, max0, node);
      heap, depth, inv := heap[len := node], depth[node := 0], inv[node := len];
      tree := tree[node := tree[node].(fc := 1)];
      forced := forced + [node];
      opt := opt - 1;
      if desc.stree != [] { stat := stat - desc.stree[node]; }
    }
    CollectedSizes(tree, heap, inv, len, desc.elems, max);
    maxCode := max;
  }

  lemma CollectedSizes(tree: seq<Node>, heap: seq<nat>, inv: seq<nat>, len: nat, elems: nat, maxCode: int)
    requires Collected(tree, heap, inv, len, elems, elems, maxCode)
    ensures |heap| == HEAP_SIZE && len <= elems <= L_CODES && elems <= |tree| == |inv| && -1 <= maxCode < elems
    ensures len > 0 ==> maxCode >= 0
  {
  }

  /** The symbol that is forced does not occur yet. */
  lemma FreeNode(tree: seq<Node>, heap: seq<nat>, inv: seq<nat>, len: nat, elems: nat, maxCode: int, node: nat)
    requires Collected(tree, heap, inv, len, elems, elems, maxCode) && len < 2 && elems >= 3
    requires if maxCode < 2 then node == maxCode + 1 else node == 0
    ensures node < 3 && tree[node].fc == 0
  {
  }

  lemma CollectedIsGrown(tree: seq<Node>, heap: seq<nat>, inv: seq<nat>, len: nat, elems: nat, maxCode: int)
    requires Collected(tree, heap, inv, len, elems, elems, maxCode) && 2 <= len && 2 * elems - 1 <= |tree|
    ensures Grown(tree, heap, inv, len, HEAP_SIZE, elems, len, elems, -1)
    ensures forall x :: 0 <= x < elems && tree[x].fc > 0 ==> x <= maxCode
  {
    forall x | 0 <= x < elems && tree[x].fc > 0 ensures x <= maxCode { assert heap[inv[x]] == x; }
  }

  /** build_tree: sub-heaps of increasing size. */
  method MakeHeap(tree: seq<Node>, depth: seq<nat>, heap0: seq<nat>, len: nat, ghost inv0: seq<nat>, ghost elems: nat)
    returns (heap: seq<nat>, ghost inv: seq<nat>)
    requires Grown(tree, heap0, inv0, len, HEAP_SIZE, elems, len, elems, -1) && |tree| <= |depth|
    ensures Grown(tree, heap, inv, len, HEAP_SIZE, elems, len, elems, -1)
    ensures len < |heap| && (forall i :: 1 <= i <= len ==> heap[i] < |tree|) && HeapFrom(tree, depth, heap, len, 1)
  {
    hide Grown, HeapFrom, Smaller, Indexed, Reordered;
    heap, inv := heap0, inv0;
    HeapNodes(tree, heap, inv, len, HEAP_SIZE, elems, len, elems, -1);
    LowerHalf(tree, depth, heap, len);
    var n := len / 2;
    while n >= 1
      invariant 0 <= n <= len / 2 && len < |heap| && forall i :: 1 <= i <= len ==> heap[i] < |tree|
      invariant Grown(tree, heap, inv, len, HEAP_SIZE, elems, len, elems, -1)
      invariant HeapFrom(tree, depth, heap, len, n + 1)
    {
      HeapNodes(tree, heap, inv, len, HEAP_SIZE, elems, len, elems, -1);
      IndexedOf(tree, heap, inv, len, HEAP_SIZE, elems, len, elems, -1);
      ghost var heap1, inv1 := heap, inv;
      heap, inv := PqDownHeap(tree, depth, heap, len, n, inv, HEAP_SIZE);
      ReorderedGrown(tree, heap1, inv1, heap, inv, len, HEAP_SIZE, elems, len, elems, -1);
      HeapNodes(tree, heap, inv, len, HEAP_SIZE, elems, len, elems, -1);
      n := n - 1;
    }
  }

  lemma LowerHalf(tree: seq<Node>, depth: seq<nat>, heap: seq<nat>, len: nat)
    requires |tree| <= |depth| && len < |heap| && forall i :: 1 <= i <= len ==> heap[i] < |tree|
    ensures HeapFrom(tree, depth, heap, len, len / 2 + 1)
  {
  }

  /** The nodes merged so far are in order of decreasing frequency, those in the heap are not less
      frequent, and every internal node is as frequent as its sons. */
  ghost predicate Ranked(tree: seq<Node>, heap: seq<nat>, len: nat, max: nat, elems: nat, node: nat) {
    && |heap| == HEAP_SIZE && len < max <= HEAP_SIZE && node <= |tree| && elems <= node
    && max + 2 * (node - elems) == HEAP_SIZE
    && (forall i :: 0 <= i < HEAP_SIZE && Used(i, len, max, HEAP_SIZE) ==> heap[i] < |tree| && tree[heap[i]].fc > 0)
    && (forall i, j :: max <= i < j < HEAP_SIZE ==> tree[heap[i]].fc >= tree[heap[j]].fc)
    && (max < HEAP_SIZE ==> forall i :: 1 <= i <= len ==> tree[heap[i]].fc >= tree[heap[max]].fc)
    && (forall x :: elems <= x < node ==> SonsAt(tree, heap, elems, x))
  }

  /** Internal node x is as frequent as its two sons. */
  ghost predicate SonsAt(tree: seq<Node>, heap: seq<nat>, elems: nat, x: nat)
    requires elems <= x < |tree|
  {
    var i := HEAP_SIZE - 2 - 2 * (x - elems);
    && 0 <= i < |heap| - 1 && heap[i] < |tree| && heap[i + 1] < |tree|
    && tree[x].fc == tree[heap[i]].fc + tree[heap[i + 1]].fc
  }

  lemma RankedStart(tree: seq<Node>, heap: seq<nat>, inv: seq<nat>, len: nat, elems: nat)
    requires Grown(tree, heap, inv, len, HEAP_SIZE, elems, len, elems, -1)
    ensures Ranked(tree, heap, len, HEAP_SIZE, elems, elems)
  {
    forall i | 0 <= i < HEAP_SIZE && Used(i, len, HEAP_SIZE, HEAP_SIZE)
      ensures heap[i] < |tree| && tree[heap[i]].fc > 0
    {
      assert Live(tree, elems, elems, heap[i]);
    }
  }

  /** What a round of Merge leaves in the heap was there before, but for the new node. */
  lemma WasThere(tree0: seq<Node>, heap0: seq<nat>, inv0: seq<nat>, len0: nat, max0: nat, elems: nat, leaves: nat,
                 node: nat, tree: seq<Node>, heap: seq<nat>, inv: seq<nat>, i: nat)
    requires Grown(tree0, heap0, inv0, len0, max0, elems, leaves, node, -1) && len0 >= 2 && max0 >= 2
    requires Grown(tree, heap, inv, len0 - 1, max0 - 2, elems, leaves, node + 1, -1) && |tree| == |tree0|
    requires forall x :: 0 <= x < |tree| && x != node ==> tree[x].fc == tree0[x].fc
    requires forall i :: max0 <= i < |heap| ==> heap[i] == heap0[i]
    requires Used(i, len0 - 1, max0, HEAP_SIZE) || i == max0 - 1 || i == max0 - 2
    requires i < max0 && heap[i] != node
    ensures heap[i] < |inv0| && 1 <= inv0[heap[i]] <= len0 && heap0[inv0[heap[i]]] == heap[i]
  {
    var x := heap[i];
    assert Used(i, len0 - 1, max0 - 2, HEAP_SIZE);
    assert Live(tree, elems, node + 1, x) && inv[x] == i;
    assert Live(tree0, elems, node, x);
    var j := inv0[x];
    assert Used(j, len0, max0, HEAP_SIZE) && heap0[j] == x;
    if j >= max0 {
      assert heap[j] == x && Used(j, len0 - 1, max0 - 2, HEAP_SIZE);
      assert false;
    }
  }

  /** A round of Merge keeps the order of frequencies. */
  lemma RankedStep(tree0: seq<Node>, depth0: seq<nat>, heap0: seq<nat>, inv0: seq<nat>, len0: nat, max0: nat,
                   elems: nat, leaves: nat, node: nat, tree: seq<Node>, heap: seq<nat>, inv: seq<nat>, n: nat, m: nat)
    requires Grown(tree0, heap0, inv0, len0, max0, elems, leaves, node, -1) && len0 >= 2 && max0 >= 2
    requires Grown(tree, heap, inv, len0 - 1, max0 - 2, elems, leaves, node + 1, -1) && |tree| == |tree0| <= |depth0|
    requires n < node < |tree0| && m < node && n != m && tree == Joined(tree0, node, n, m)
    requires heap[max0 - 2] == m && heap[max0 - 1] == n && forall i :: max0 <= i < |heap| ==> heap[i] == heap0[i]
    requires forall i :: 1 <= i <= len0 ==> heap0[i] < |tree0|
    requires Least(tree0, depth0, heap0, len0, n, n) && Least(tree0, depth0, heap0, len0, m, n)
    requires Ranked(tree0, heap0, len0, max0, elems, node)
    ensures Ranked(tree, heap, len0 - 1, max0 - 2, elems, node + 1)
  {
    hide Grown, Joined, Ranked, Live, Used, Least;
    JoinedIs(tree0, node, n, m);
    RankedIs(tree0, heap0, len0, max0, elems, node);
    GrownIs(tree, heap, inv, len0 - 1, max0 - 2, elems, leaves, node + 1);
    GrownIs(tree0, heap0, inv0, len0, max0, elems, leaves, node);
    forall i | (1 <= i <= len0 - 1 || max0 - 2 <= i < max0) && heap[i] != node
      ensures heap[i] < |inv0| && 1 <= inv0[heap[i]] <= len0 && heap0[inv0[heap[i]]] == heap[i]
    {
      assert Used(i, len0 - 1, max0, HEAP_SIZE) || i >= max0 - 2 by { UsedIs(i, len0 - 1, max0); }
      WasThere(tree0, heap0, inv0, len0, max0, elems, leaves, node, tree, heap, inv, i);
    }
    forall i | 1 <= i <= len0 - 1
      ensures heap[i] < |tree| && tree[heap[i]].fc > 0 && tree[heap[i]].fc >= tree[m].fc
    {
      assert inv[heap[i]] == i && inv[heap[max0 - 1]] == max0 - 1;
      if heap[i] != node { LeastIs(tree0, depth0, heap0, len0, m, n, inv0[heap[i]]); }
    }
    LeastIs(tree0, depth0, heap0, len0, n, n, inv0[m]);
    RankedNow(tree0, heap0, len0, max0, elems, node, tree, heap, n, m);
  }

  lemma UsedIs(i: nat, len: nat, max: nat)
    ensures Used(i, len, max, HEAP_SIZE) <==> 1 <= i <= len || max <= i < HEAP_SIZE
  {
  }

  lemma LeastIs(tree: seq<Node>, depth: seq<nat>, heap: seq<nat>, len: nat, n: nat, x: nat, i: nat)
    requires n < |tree| <= |depth| && len < |heap| && forall i :: 1 <= i <= len ==> heap[i] < |tree|
    requires Least(tree, depth, heap, len, n, x) && 1 <= i <= len && (heap[i] != x || n == x)
    ensures tree[n].fc <= tree[heap[i]].fc
  {
  }

  lemma GrownIs(tree: seq<Node>, heap: seq<nat>, inv: seq<nat>, len: nat, max: nat, elems: nat, leaves: nat, node: nat)
    requires Grown(tree, heap, inv, len, max, elems, leaves, node, -1)
    ensures |heap| == HEAP_SIZE && len < max <= HEAP_SIZE && |inv| == |tree| && elems <= node <= |tree|
    ensures max + 2 * (node - elems) == HEAP_SIZE
    ensures forall i :: 1 <= i <= len || max <= i < HEAP_SIZE ==> heap[i] < node && inv[heap[i]] == i
  {
    forall i | 1 <= i <= len || max <= i < HEAP_SIZE ensures heap[i] < node && inv[heap[i]] == i {
      assert Used(i, len, max, HEAP_SIZE);
      assert Live(tree, elems, node, heap[i]);
    }
  }

  lemma RankedIs(tree: seq<Node>, heap: seq<nat>, len: nat, max: nat, elems: nat, node: nat)
    requires Ranked(tree, heap, len, max, elems, node)
    ensures |heap| == HEAP_SIZE && len < max <= HEAP_SIZE && elems <= node <= |tree|
    ensures forall i :: 1 <= i <= len ==> heap[i] < |tree| && tree[heap[i]].fc > 0
    ensures max < HEAP_SIZE ==> heap[max] < |tree| && forall i :: 1 <= i <= len ==>
              tree[heap[i]].fc >= tree[heap[max]].fc
  {
    UsedIs(max, len, max);
    forall i | 1 <= i <= len ensures heap[i] < |tree| && tree[heap[i]].fc > 0 { UsedIs(i, len, max); }
  }

  lemma RankedNow(tree0: seq<Node>, heap0: seq<nat>, len0: nat, max0: nat, elems: nat, node: nat, tree: seq<Node>,
                  heap: seq<nat>, n: nat, m: nat)
    requires Ranked(tree0, heap0, len0, max0, elems, node) && len0 >= 2 && |heap| == HEAP_SIZE && max0 > len0 + 1
    requires n < node < |tree0| && m < node && |tree| == |tree0|
    requires forall x :: 0 <= x < |tree| ==>
               tree[x].fc == if x == node then tree0[n].fc + tree0[m].fc else tree0[x].fc
    requires heap[max0 - 2] == m && heap[max0 - 1] == n
    requires forall i :: max0 <= i < HEAP_SIZE ==> heap[i] == heap0[i] && heap[i] < node
    requires forall i :: 1 <= i <= len0 - 1 ==>
               heap[i] < |tree| && tree[heap[i]].fc > 0 && tree[heap[i]].fc >= tree[m].fc
    requires tree0[m].fc >= tree0[n].fc > 0 && (max0 < HEAP_SIZE ==> tree0[n].fc >= tree0[heap0[max0]].fc)
    ensures Ranked(tree, heap, len0 - 1, max0 - 2, elems, node + 1)
  {
    forall i | 0 <= i < HEAP_SIZE && Used(i, len0 - 1, max0 - 2, HEAP_SIZE)
      ensures heap[i] < |tree| && tree[heap[i]].fc > 0
    {
      if i >= max0 { assert Used(i, len0, max0, HEAP_SIZE); }
    }
    forall x | elems <= x < node + 1 ensures SonsAt(tree, heap, elems, x) {
      var i := HEAP_SIZE - 2 - 2 * (x - elems);
      if x < node {
        assert SonsAt(tree0, heap0, elems, x);
        assert max0 <= i && heap[i] == heap0[i] && heap[i + 1] == heap0[i + 1];
      }
    }
  }

  /** The merge tree in the order of frequencies. */
  lemma RankedIsHuffman(tree: seq<Node>, heap: seq<nat>, inv: seq<nat>, max: nat, elems: nat, leaves: nat)
    requires leaves >= 2 && 2 <= max <= |heap| && elems + leaves - 1 <= |inv| == |tree|
    requires Ranked(tree, heap, 1, max, elems, elems + leaves - 1) && heap[1] == elems + leaves - 2
    requires forall x :: elems <= x < elems + leaves - 2 ==> inv[x] >= max
    requires TreeOf(heap[max - 1 := heap[1]], inv, max, elems, leaves).Ok()
    ensures Huffman(TreeOf(heap[max - 1 := heap[1]], inv, max, elems, leaves), FreqsOf(tree, |tree|))
  {
    hide Ranked, SonsAt;
    var h := heap[max - 1 := heap[1]];
    var t, w := TreeOf(h, inv, max, elems, leaves), FreqsOf(tree, |tree|);
    RankedOrder(tree, heap, max, elems, leaves, t.order);
    forall j | 0 <= j < leaves - 1 ensures Weighed(t, w, j) {
      RankedSons(tree, heap, max, elems, leaves, t.order, j);
    }
  }

  lemma RankedOrder(tree: seq<Node>, heap: seq<nat>, max: nat, elems: nat, leaves: nat, order: seq<nat>)
    requires leaves >= 2 && 2 <= max <= |heap| && order == heap[max - 1 := heap[1]][max - 1..]
    requires Ranked(tree, heap, 1, max, elems, elems + leaves - 1)
    ensures forall p :: 0 <= p < |order| ==> order[p] < |tree| && tree[order[p]].fc > 0
    ensures forall p, q :: 0 <= p < q < |order| ==> tree[order[p]].fc >= tree[order[q]].fc
  {
    assert Used(1, 1, max, HEAP_SIZE);
    forall p | 1 <= p < |order| ensures order[p] == heap[max - 1 + p] && order[p] < |tree| && tree[order[p]].fc > 0 {
      assert Used(max - 1 + p, 1, max, HEAP_SIZE);
    }
    forall p, q | 0 <= p < q < |order| ensures tree[order[p]].fc >= tree[order[q]].fc {
      if p == 0 {
        assert tree[heap[1]].fc >= tree[heap[max]].fc;
        if q > 1 { assert tree[heap[max]].fc >= tree[heap[max - 1 + q]].fc; }
      }
    }
  }

  lemma RankedSons(tree: seq<Node>, heap: seq<nat>, max: nat, elems: nat, leaves: nat, order: seq<nat>, j: nat)
    requires leaves >= 2 && 2 <= max <= |heap| && order == heap[max - 1 := heap[1]][max - 1..] && j + 2 <= leaves
    requires Ranked(tree, heap, 1, max, elems, elems + leaves - 1)
    ensures var s := 2 * (leaves - 2 - j) + 1;
            && s + 1 < |order| && elems + j < |tree| && order[s] < |tree| && order[s + 1] < |tree|
            && tree[elems + j].fc == tree[order[s]].fc + tree[order[s + 1]].fc
  {
    assert SonsAt(tree, heap, elems, elems + j);
  }

  /** build_tree, the merging loop: leaves the tree in heap[heap_max..]. */
  method MergeAll(tree0: seq<Node>, depth0: seq<nat>, heap0: seq<nat>, len0: nat, ghost inv0: seq<nat>, elems: nat)
    returns (tree: seq<Node>, heap: seq<nat>, max: nat, ghost inv: seq<nat>)
    requires Grown(tree0, heap0, inv0, len0, HEAP_SIZE, elems, len0, elems, -1) && len0 >= 2 && |tree0| <= |depth0|
    requires (forall i :: 1 <= i <= len0 ==> heap0[i] < |tree0|) && HeapFrom(tree0, depth0, heap0, len0, 1)
    ensures |tree| == |tree0| && elems <= |tree| && forall x :: 0 <= x < elems ==> tree[x].fc == tree0[x].fc
    ensures Grown(tree, heap, inv, 1, max, elems, len0, elems + len0 - 1, -1) && heap[1] == elems + len0 - 2
    ensures Ranked(tree, heap, 1, max, elems, elems + len0 - 1)
  {
    hide Grown, HeapFrom, Smaller, Joined, Ranked, Least;
    RankedStart(tree0, heap0, inv0, len0, elems);
    var len, depth := len0, depth0;
    tree, heap, max, inv := tree0, heap0, HEAP_SIZE, inv0;
    var node := elems;
    IndexedOf(tree, heap, inv, len, max, elems, len0, node, -1);
    while len >= 2
      invariant 1 <= len <= len0 && |tree| == |tree0| <= |depth| && elems <= |tree| && len < |heap|
      invariant elems <= node && node - elems == len0 - len
      invariant forall x :: 0 <= x < elems ==> tree[x].fc == tree0[x].fc
      invariant Grown(tree, heap, inv, len, max, elems, len0, node, -1)
      invariant Ranked(tree, heap, len, max, elems, node)
      invariant (forall i :: 1 <= i <= len ==> heap[i] < |tree|) && HeapFrom(tree, depth, heap, len, 1)
      invariant len < len0 ==> elems < node <= |inv| && 1 <= inv[node - 1] <= len && heap[inv[node - 1]] == node - 1
      decreases len
    {
      var n, m;
      ghost var tree1, depth1, heap1, inv1, len1, max1 := tree, depth, heap, inv, len, max;
      tree, depth, heap, len, max, inv, n, m := Merge(tree, depth, heap, len, max, inv, elems, len0, node);
      JoinedIs(tree1, node, n, m);
      RankedStep(tree1, depth1, heap1, inv1, len1, max1, elems, len0, node, tree, heap, inv, n, m);
      IndexedOf(tree, heap, inv, len, max, elems, len0, node + 1, -1);
      node := node + 1;
    }
  }

  /** The finished tree as gen_bitlen expects it: the root at max - 1, then the sons. */
  ghost function TreeOf(heap: seq<nat>, inv: seq<nat>, max: nat, elems: nat, leaves: nat): Merging
    requires 1 <= max <= |heap| && leaves >= 2 && elems + leaves - 1 <= |inv|
    requires forall x :: elems <= x < elems + leaves - 2 ==> inv[x] >= max
  {
    Merging(heap[max - 1..],
      seq(leaves - 1, j requires 0 <= j < leaves - 1 => if j == leaves - 2 then 0 else inv[elems + j] + 1 - max),
            elems, leaves)
  }

  lemma OnlyRootLeft(tree: seq<Node>, heap: seq<nat>, inv: seq<nat>, max: nat, elems: nat, leaves: nat)
    requires leaves >= 2 && Grown(tree, heap, inv, 1, max, elems, leaves, elems + leaves - 1, -1) &&
             heap[1] == elems + leaves - 2
    ensures max + 2 * (leaves - 1) == HEAP_SIZE == |heap| && elems + leaves - 1 <= |tree| == |inv| && 3 <= max
    ensures forall x :: 0 <= x < |tree| && Live(tree, elems, elems + leaves - 1, x) && x != elems + leaves - 2 ==>
              max <= inv[x] < HEAP_SIZE && heap[inv[x]] == x
  {
    forall x | 0 <= x < |tree| && Live(tree, elems, elems + leaves - 1, x) && x != elems + leaves - 2
      ensures max <= inv[x] < HEAP_SIZE && heap[inv[x]] == x
    {
      assert Used(inv[x], 1, max, HEAP_SIZE) && heap[inv[x]] == x;
    }
  }

  lemma TreeIsMerging(tree: seq<Node>, heap: seq<nat>, inv: seq<nat>, max: nat, elems: nat, leaves: nat)
    requires leaves >= 2 && Grown(tree, heap, inv, 1, max, elems, leaves, elems + leaves - 1, -1) &&
             heap[1] == elems + leaves - 2
    ensures 3 <= max <= |heap| && forall x :: elems <= x < elems + leaves - 2 ==> inv[x] >= max
    ensures TreeOf(heap[max - 1 := heap[1]], inv, max, elems, leaves).Ok()
  {
    OnlyRootLeft(tree, heap, inv, max, elems, leaves);
    var h := heap[max - 1 := heap[1]];
    forall x | elems <= x < elems + leaves - 2 ensures inv[x] >= max {
      assert Live(tree, elems, elems + leaves - 1, x);
    }
    var t := TreeOf(h, inv, max, elems, leaves);
    forall i | max <= i < HEAP_SIZE ensures h[i] < elems + leaves - 1 && h[i] != heap[1] && inv[h[i]] == i {
      assert Used(i, 1, max, HEAP_SIZE) && Used(1, 1, max, HEAP_SIZE);
    }
    assert forall p :: 1 <= p < |t.order| ==> t.order[p] == h[max - 1 + p];
    forall j | 0 <= j < |t.pos| ensures t.pos[j] < t.FirstSon(j) && t.order[t.pos[j]] == elems + j {
      if j < leaves - 2 {
        assert Live(tree, elems, elems + leaves - 1, elems + j);
        assert t.order[t.pos[j]] == h[max - 1 + t.pos[j]];
      }
    }
  }

  lemma TreeIsReady(tree: seq<Node>, heap: seq<nat>, inv: seq<nat>, max: nat, desc: Desc, leaves: nat, maxCode: nat)
    requires leaves >= 2 && Grown(tree, heap, inv, 1, max, desc.elems, leaves, desc.elems + leaves - 1, -1) &&
             heap[1] == desc.elems + leaves - 2
    requires desc.Ok() && maxCode < desc.elems && forall x :: 0 <= x < desc.elems && tree[x].fc > 0 ==> x <= maxCode
    ensures 3 <= max <= |heap| && desc.elems + leaves - 1 <= |inv|
    ensures forall x :: desc.elems <= x < desc.elems + leaves - 2 ==> inv[x] >= max
    ensures Ready(tree, TreeOf(heap[max - 1 := heap[1]], inv, max, desc.elems, leaves), desc, maxCode)
  {
    TreeIsMerging(tree, heap, inv, max, desc.elems, leaves);
    OnlyRootLeft(tree, heap, inv, max, desc.elems, leaves);
    var elems := desc.elems;
    var h := heap[max - 1 := heap[1]];
    var t := TreeOf(h, inv, max, elems, leaves);
    forall p | 1 <= p < |t.order|
      ensures tree[t.order[p]].dl == elems + t.Father(p) && (t.order[p] < elems ==> tree[t.order[p]].fc > 0)
    {
      assert t.order[p] == heap[max - 1 + p];
      assert Used(max - 1 + p, 1, max, HEAP_SIZE);
    }
    forall i | 0 <= i < elems && tree[i].fc > 0 ensures i in t.order {
      assert Live(tree, elems, elems + leaves - 1, i);
      assert t.order[inv[i] + 1 - max] == i;
    }
  }

  lemma {:induction false} CostOfFreq(f: seq<nat>, c: seq<nat>, i: nat)
    requires |f| == |c| && i < |f| && f[i] == 0
    ensures Cost(f[i := 1], c) == Cost(f, c) + c[i]
    decreases |f|
  {
    var n := |f| - 1;
    if i == n {
      assert f[i := 1][..n] == f[..n];
    } else {
      assert f[i := 1][..n] == f[..n][i := 1];
      CostOfFreq(f[..n], c[..n], i);
    }
  }

  lemma {:induction false} ForcedAt(f: seq<nat>, xs: seq<nat>, x: nat)
    requires (forall i :: 0 <= i < |xs| ==> xs[i] < |f| && xs[i] != x) && x < |f|
    ensures Forced(f, xs)[x] == f[x]
  {
    if xs != [] { ForcedAt(f, xs[..|xs| - 1], x); }
  }

  /** The forced symbols cost what they have bits. */
  lemma {:induction false} CostOfForced(f: seq<nat>, xs: seq<nat>, c: seq<nat>)
    requires |f| == |c| && (forall i :: 0 <= i < |xs| ==> xs[i] < |f| && f[xs[i]] == 0)
    requires forall i, j :: 0 <= i < j < |xs| ==> xs[i] != xs[j]
    ensures Cost(Forced(f, xs), c) == Cost(f, c) + SumAt(c, xs)
    decreases |xs|
  {
    if xs != [] {
      var n := |xs| - 1;
      CostOfForced(f, xs[..n], c);
      ForcedAt(f, xs[..n], xs[n]);
      CostOfFreq(Forced(f, xs[..n]), c, xs[n]);
    }
  }

  lemma {:induction false} SumOfOnes(c: seq<nat>, xs: seq<nat>)
    requires forall i :: 0 <= i < |xs| ==> xs[i] < |c| && c[xs[i]] == 1
    ensures SumAt(c, xs) == |xs|
  {
    if xs != [] { SumOfOnes(c, xs[..|xs| - 1]); }
  }

  lemma {:induction false} SumSame(c: seq<nat>, c': seq<nat>, xs: seq<nat>)
    requires forall i :: 0 <= i < |xs| ==> xs[i] < |c| && xs[i] < |c'| && c[xs[i]] == c'[xs[i]]
    ensures SumAt(c, xs) == SumAt(c', xs)
  {
    if xs != [] { SumSame(c, c', xs[..|xs| - 1]); }
  }

  /** Two codes that make a full set are one bit long. */
  lemma TwoCodes(bl: Counts, max: nat, k: nat)
    requires 1 <= max <= MAX_BITS && Complete(bl, max) && CodesFrom(bl, 1, max) == 2 && 2 <= k <= max
    ensures bl[k] == 0
  {
    StringsLeft(bl, 2, max);
    assert First(bl, 2) == 2 * bl[1] && Pow2(2) == 4;
    CodesFromMono(bl, 2, k, max);
  }

  /** With two symbols, both have length 1. */
  lemma ForcedLength(tree: seq<Node>, tree0: seq<Node>, t: Merging, desc: Desc, maxCode: nat, bl: Counts, opt: int,
                     stat: int, x: nat)
    requires Ready(tree0, t, desc, maxCode) && t.leaves == 2 && Limited(tree, tree0, desc, bl, opt, stat)
    requires Complete(bl, desc.maxLength) && CodesFrom(bl, 1, desc.maxLength) == LeavesIn(t.order, t.elems)
    requires x < desc.elems && tree0[x].fc > 0
    ensures tree[x].dl == 1
  {
    hide CodesFrom, Cost, Complete, CountOf, Desc.Bits;
    assert |t.order| == 3;
    assert t.order[..2][..1][..0] == [];
    assert LeavesIn(t.order[..2][..1][..0], t.elems) == 0;
    assert LeavesIn(t.order[..2][..1], t.elems) == 0;
    assert LeavesIn(t.order[..2], t.elems) == 1;
    var b := LensOf(tree, desc.elems);
    RankBelowCount(b, x);
    if b[x] > 1 { TwoCodes(bl, desc.maxLength, b[x]); }
  }

  lemma LimitedIsComplete(tree: seq<Node>, tree0: seq<Node>, desc: Desc, bl: Counts, opt: int, stat: int)
    requires Limited(tree, tree0, desc, bl, opt, stat) && End(bl, desc.maxLength) == Pow2(desc.maxLength)
    ensures Complete(bl, desc.maxLength) && Fits(bl, MAX_BITS) && bl[0] == 0
    ensures Full(LensOf(tree, desc.elems))
  {
    hide Pow2, First, CountOf, Cost, Fits, Desc.Bits;
    NoneLonger(tree, tree0, desc, bl, opt, stat);
    EndBehind(bl, desc.maxLength, MAX_BITS);
    Pow2Shl(desc.maxLength, MAX_BITS);
    KraftSays(bl, desc.maxLength);
    KraftSays(bl, MAX_BITS);
    FirstSame(bl, CountsOf(LensOf(tree, desc.elems)), MAX_BITS);
  }

  lemma {:induction false} TrailingZeros(b: seq<nat>, n: nat, k: nat)
    requires n <= |b| && k > 0 && forall i :: n <= i < |b| ==> b[i] == 0
    ensures CountOf(b, k) == CountOf(b[..n], k)
    decreases |b|
  {
    if n < |b| {
      TrailingZeros(b[..|b| - 1], n, k);
      assert b[..|b| - 1][..n] == b[..n];
    } else {
      assert b[..n] == b;
    }
  }

  /** Only the symbols up to maxCode have codes. */
  lemma ShorterList(tree: seq<Node>, elems: nat, n: nat)
    requires n <= elems <= |tree| && forall i :: n <= i < elems ==> tree[i].dl == 0
    ensures forall k :: 1 <= k <= MAX_BITS ==> CountOf(LensOf(tree, elems), k) == CountOf(LensOf(tree, n), k)
    ensures Kraft(LensOf(tree, elems)) == Kraft(LensOf(tree, n))
  {
    hide CountOf, First;
    var b, c := LensOf(tree, elems), LensOf(tree, n);
    assert b[..n] == c;
    forall k | 1 <= k <= MAX_BITS ensures CountOf(b, k) == CountOf(c, k) { TrailingZeros(b, n, k); }
    FirstSame(CountsOf(b), CountsOf(c), MAX_BITS);
  }

  /** What build_tree leaves: for the symbols up to maxCode a complete set of codes of at most
      the greatest length, with the canonical codes set; the symbols beyond have none. */
  ghost predicate TreeBuilt(tree: seq<Node>, desc: Desc, maxCode: nat) {
    && 1 <= desc.maxLength <= MAX_BITS && maxCode < desc.elems <= |tree|
    && (forall i :: 0 <= i < desc.elems ==> tree[i].dl <= desc.maxLength)
    && (forall i :: maxCode < i < desc.elems ==> tree[i].dl == 0)
    && tree[maxCode].dl > 0
    && Full(LensOf(tree, maxCode + 1))
    && Lengths(LensOf(tree, maxCode + 1)) && Coded(tree, LensOf(tree, maxCode + 1))
  }

  /** The symbols that get a code: those that occur, and up to two more if fewer than two do. */
  ghost predicate CodesFor(tree: seq<Node>, f: seq<nat>, forced: seq<nat>)
    requires |f| <= |tree|
  {
    && (forall i :: 0 <= i < |f| ==> (tree[i].dl > 0 <==> f[i] > 0 || i in forced))
    && (forall x :: x in forced ==> x < |f| && f[x] == 0)
    && (forced != [] ==> |forced| <= 2 && forall i :: 0 <= i < |f| ==> tree[i].dl <= 1)
  }

  /** The two lengths predict the bits for all symbols, the forced ones not counted. */
  lemma CostIsExact(tree0: seq<Node>, tree1: seq<Node>, tree2: seq<Node>, desc: Desc, forced: seq<nat>, bl: Counts,
                    opt1: int, stat1: int, opt: int, stat: int)
    requires ForcedTo(tree0, tree1, desc, forced, opt1, stat1) && |tree1| == |tree2|
    requires FreqsOf(tree1, desc.elems) == FreqsOf(tree2, desc.elems)
    requires desc.Ok() && desc.elems >= 3 && forall n :: 0 <= n < 3 ==> desc.Extra(n) == 0
    requires forall i :: 0 <= i < |forced| ==> tree2[forced[i]].dl == 1
    requires var f := FreqsOf(tree1, desc.elems);
             && opt == Cost(f, desc.Bits(LensOf(tree2, desc.elems)))
             && (desc.stree != [] ==> stat == Cost(f, desc.Bits(desc.stree[..desc.elems])))
    ensures var f := FreqsOf(tree0, desc.elems);
            && opt1 + opt == Cost(f, desc.Bits(LensOf(tree2, desc.elems)))
            && (desc.stree != [] ==> stat1 + stat == Cost(f, desc.Bits(desc.stree[..desc.elems])))
  {
    hide Cost, Forced, SumAt;
    var f, c := FreqsOf(tree0, desc.elems), desc.Bits(LensOf(tree2, desc.elems));
    CostOfForced(f, forced, c);
    SumOfOnes(c, forced);
    if desc.stree != [] {
      var c' := desc.Bits(desc.stree[..desc.elems]);
      CostOfForced(f, forced, c');
      SumSame(desc.stree, c', forced);
    }
  }

  /** build_tree up to gen_bitlen: the Huffman tree in heap[heap_max..]. */
  method GrowTree(tree0: seq<Node>, depth0: seq<nat>, desc: Desc)
    returns (tree: seq<Node>, order: seq<nat>, maxCode: nat, opt: int, stat: int, ghost t: Merging,
            ghost forced: seq<nat>,
             ghost tree1: seq<Node>)
    requires desc.Ok() && 3 <= desc.elems <= L_CODES && 2 * desc.elems - 1 <= |tree0| <= |depth0|
    ensures Ready(tree, t, desc, maxCode) && order == t.order && |tree| == |tree0| && tree[maxCode].fc > 0
    ensures ForcedTo(tree1, tree, desc, forced, opt, stat) && |forced| <= 2 && (forced != [] ==> t.leaves == 2)
    ensures |tree1| == |tree0| && FreqsOf(tree1, desc.elems) == FreqsOf(tree0, desc.elems)
    ensures Huffman(t, FreqsOf(tree, |tree|)) && Carries(t, FreqsOf(tree, desc.elems))
  {
    hide Huffman, Ranked, Carries, Collected, Grown, HeapFrom, Smaller, Indexed, Ready, Desc.Ok, Forced, SumAt;
    ghost var inv;
    var heap, len, depth;
    var elems := desc.elems;
    DescSizes(desc);
    var max1: int;
    tree, depth, heap, len, max1, inv := CollectUsed(tree0, depth0, elems);
    tree1 := tree;
    assert FreqsOf(tree1, elems) == FreqsOf(tree0, elems);
    tree, depth, heap, len, maxCode, opt, stat, inv, forced := ForceTwo(tree, depth, heap, len, max1, inv, desc);
    CollectedIsGrown(tree, heap, inv, len, elems, maxCode);
    LastOccurs(tree, heap, inv, len, elems, maxCode);
    heap, inv := MakeHeap(tree, depth, heap, len, inv, elems);
    ghost var tree2 := tree;
    var max;
    tree, heap, max, inv := MergeAll(tree, depth, heap, len, inv, elems);
    TreeIsReady(tree, heap, inv, max, desc, len, maxCode);
    assert |inv| == |tree| by { GrownIs(tree, heap, inv, 1, max, elems, len, elems + len - 1); }
    assert TreeOf(heap[max - 1 := heap[1]], inv, max, elems, len).Ok() by {
      TreeIsMerging(tree, heap, inv, max, elems, len);
    }
    RankedIsHuffman(tree, heap, inv, max, elems, len);
    heap := heap[max - 1 := heap[1]];
    t := TreeOf(heap, inv, max, elems, len);
    order := heap[max - 1..];
    ReadyCarries(tree, t, desc, maxCode);
    assert FreqsOf(tree, elems) == FreqsOf(tree2, elems);
  }

  lemma ReadyCarries(tree: seq<Node>, t: Merging, desc: Desc, maxCode: nat)
    requires Ready(tree, t, desc, maxCode)
    ensures Carries(t, FreqsOf(tree, desc.elems))
  {
    forall i | 0 <= i < desc.elems && i in t.order ensures tree[i].fc > 0 {
      var p :| 0 <= p < |t.order| && t.order[p] == i;
    }
  }

  lemma DescSizes(desc: Desc)
    requires desc.Ok()
    ensures desc.stree == [] || |desc.stree| >= desc.elems
  {
  }

  lemma LastOccurs(tree: seq<Node>, heap: seq<nat>, inv: seq<nat>, len: nat, elems: nat, maxCode: nat)
    requires Collected(tree, heap, inv, len, elems, elems, maxCode)
    ensures maxCode < elems && tree[maxCode].fc > 0
  {
  }

  /** t merges symbols that occur f[i] times, and forced ones that count as occurring once: always
      two of the lightest nodes that are left. */
  ghost predicate MergeTree(t: Merging, w: seq<nat>, f: seq<nat>, forced: seq<nat>) {
    && Huffman(t, w) && |f| == t.elems && Carries(t, w[..t.elems])
    && forall i :: 0 <= i < t.elems ==> w[i] == if i in forced then 1 else f[i]
  }

  /** Unless the merge tree is deeper than the lengths may be, no code takes fewer bits than opt; and it
      is not, if all symbols together occur less often than a Fibonacci number. */
  ghost predicate CheapestIfShallow(t: Merging, f: seq<nat>, desc: Desc, opt: int) {
    t.Ok() && (t.Shallow(desc.maxLength) || Sum(f) < Fib(desc.maxLength + 3) ==> Cheapest(f, desc, opt))
  }

  /** A more frequent symbol never has a longer code. */
  ghost predicate Steep(f: seq<nat>, len: seq<nat>)
    requires |f| <= |len|
  {
    forall i, j :: 0 <= i < |f| && 0 <= j < |f| && f[i] > f[j] && len[j] > 0 ==> len[i] <= len[j]
  }

  /** The lengths that gen_bitlen gives fall with the frequencies, also those given anew. */
  lemma LengthsAreSteep(t: Merging, w: seq<nat>, f: seq<nat>, len: seq<nat>, max: nat)
    requires Huffman(t, w) && Carries(t, f) && |len| == t.elems && forall i :: 0 <= i < t.elems ==> w[i] == f[i]
    requires t.Shallow(max) ==>
               forall p :: 0 <= p < |t.order| && t.order[p] < t.elems ==> len[t.order[p]] == t.Depth(p)
    requires !t.Shallow(max) ==> Falling(t, len, 0, 0)
    requires forall i :: 0 <= i < |f| ==> (len[i] > 0 <==> f[i] > 0)
    ensures Steep(f, len)
  {
    hide Huffman, Merging.Depth, Merging.Shallow;
    HuffmanIs(t, w);
    var d := AllDepths(t, |w|);
    forall i, j | 0 <= i < |f| && 0 <= j < |f| && f[i] > f[j] && len[j] > 0 ensures len[i] <= len[j] {
      var p :| 0 <= p < |t.order| && t.order[p] == i;
      var q :| 0 <= q < |t.order| && t.order[q] == j;
      if t.Shallow(max) {
        HeavierIsHigher(t, w, d, p, q);
      } else if q <= p {
        Ordered(t, w, q, p);
      }
    }
  }

  lemma ShortIsSteep(f: seq<nat>, len: seq<nat>)
    requires |f| <= |len| && forall i :: 0 <= i < |f| ==> len[i] <= 1
    ensures Steep(f, len)
  {
  }

  /** What the lengths of a merge tree are good for, whether symbols had to be forced or not. */
  lemma LengthsAreGood(t: Merging, w: seq<nat>, f: seq<nat>, forced: seq<nat>, desc: Desc, len: seq<nat>)
    requires MergeTree(t, w, f, forced) && |len| == t.elems == desc.elems <= desc.base + |desc.extra|
    requires t.Shallow(desc.maxLength) ==>
               forall p :: 0 <= p < |t.order| && t.order[p] < t.elems ==> len[t.order[p]] == t.Depth(p)
    requires !t.Shallow(desc.maxLength) ==> Falling(t, len, 0, 0)
    requires forall i :: 0 <= i < |f| ==> (len[i] > 0 <==> f[i] > 0 || i in forced)
    requires forced != [] ==> forall i :: 0 <= i < |len| ==> len[i] <= 1
    ensures Steep(f, len)
    ensures CheapestIfShallow(t, f, desc, Cost(f, desc.Bits(len)))
  {
    hide Huffman, Merging.Depth, Merging.Shallow, Cost, Desc.Bits, Cheapest, Steep, Sum, Fib, Carries, Falling;
    HuffmanIs(t, w);
    if forced != [] {
      ShortIsSteep(f, len);
      OneBitIsCheapest(f, desc, len);
    } else {
      assert w[..t.elems] == f;
      LengthsAreSteep(t, w, f, len, desc.maxLength);
      if Sum(f) < Fib(desc.maxLength + 3) { LightIsShallow(t, w, f, desc.maxLength); }
      if t.Shallow(desc.maxLength) { DepthsAreCheapest(t, w, f, desc, len); }
    }
  }

  lemma ForcedMerge(t: Merging, w: seq<nat>, f: seq<nat>, forced: seq<nat>)
    requires Huffman(t, w) && |f| == t.elems && Carries(t, w[..t.elems])
    requires forall i :: 0 <= i < |forced| ==> forced[i] < |f|
    requires w[..t.elems] == Forced(f, forced)
    ensures MergeTree(t, w, f, forced)
  {
    hide Huffman, Carries, Forced;
    HuffmanIs(t, w);
    forall i | 0 <= i < t.elems ensures w[i] == if i in forced then 1 else f[i] {
      assert w[i] == w[..t.elems][i];
      ForcedIs(f, forced, i);
    }
  }

  lemma {:induction false} ForcedIs(f: seq<nat>, xs: seq<nat>, i: nat)
    requires (forall k :: 0 <= k < |xs| ==> xs[k] < |f|) && i < |f|
    ensures Forced(f, xs)[i] == if i in xs then 1 else f[i]
  {
    if xs != [] {
      var n := |xs| - 1;
      assert xs == xs[..n] + [xs[n]];
      ForcedIs(f, xs[..n], i);
    }
  }

  /** build_tree: a code of limited length for the symbols that occur, shorter for those that occur more
      often, and its exact cost, which is the least possible if no length has to be limited. */
  method BuildTree(tree0: seq<Node>, depth0: seq<nat>, desc: Desc)
    returns (tree: seq<Node>, maxCode: nat, opt: int, stat: int, ghost forced: seq<nat>, ghost t: Merging,
             ghost w: seq<nat>)
    requires desc.Ok() && 3 <= desc.elems <= L_CODES && 2 * desc.elems - 1 <= |tree0| <= |depth0|
    requires forall n :: 0 <= n < 3 ==> desc.Extra(n) == 0
    ensures TreeBuilt(tree, desc, maxCode) && |tree| == |tree0|
    ensures CodesFor(tree, FreqsOf(tree0, desc.elems), forced)
    ensures opt == Cost(FreqsOf(tree0, desc.elems), desc.Bits(LensOf(tree, desc.elems)))
    ensures desc.stree != [] ==> stat == Cost(FreqsOf(tree0, desc.elems), desc.Bits(desc.stree[..desc.elems]))
    ensures MergeTree(t, w, FreqsOf(tree0, desc.elems), forced)
    ensures Steep(FreqsOf(tree0, desc.elems), LensOf(tree, desc.elems))
    ensures CheapestIfShallow(t, FreqsOf(tree0, desc.elems), desc, opt)
  {
    hide Steep, CheapestIfShallow, Huffman, Carries, Merging.Shallow, Falling, Ready, Cost, Kraft, Complete, Fits,
         Coded, CountOf, CodesFrom, Pow2, End, LeavesIn, Desc.Bits, Forced, SumAt;
    var order, opt1, stat1;
    ghost var tree1;
    tree, order, maxCode, opt1, stat1, t, forced, tree1 := GrowTree(tree0, depth0, desc);
    ghost var tree2 := tree;
    w := FreqsOf(tree, |tree|);
    var bl;
    tree, bl, opt, stat := GenBitlen(tree, order, t, desc, maxCode);
    LimitedIsComplete(tree, tree2, desc, bl, opt, stat);
    AllForced(tree, tree1, tree2, t, desc, maxCode, bl, opt, stat, opt1, stat1, forced);
    CostIsExact(tree1, tree2, tree, desc, forced, bl, opt1, stat1, opt, stat);
    opt, stat := opt1 + opt, stat1 + stat;
    BeyondMax(tree, tree2, t, desc, maxCode, bl, opt - opt1, stat - stat1);
    ShorterList(tree, desc.elems, maxCode + 1);
    ghost var tree3 := tree;
    tree := GenCodes(tree, maxCode, bl);
    assert LensOf(tree, maxCode + 1) == LensOf(tree3, maxCode + 1);
    assert LensOf(tree, desc.elems) == LensOf(tree3, desc.elems);
    ReadyIs(tree2, t, desc, maxCode);
    MergedWell(tree0, tree1, tree2, tree3, t, desc, forced, opt1, stat1);
  }

  lemma MergedWell(tree0: seq<Node>, tree1: seq<Node>, tree2: seq<Node>, tree: seq<Node>, t: Merging, desc: Desc,
                   forced: seq<nat>, opt1: int, stat1: int)
    requires desc.elems == t.elems <= |tree1| == |tree0| && desc.Ok()
    requires Huffman(t, FreqsOf(tree2, |tree2|)) && Carries(t, FreqsOf(tree2, desc.elems))
    requires ForcedTo(tree1, tree2, desc, forced, opt1, stat1)
    requires FreqsOf(tree1, desc.elems) == FreqsOf(tree0, desc.elems)
    requires |tree| == |tree2| && CodesFor(tree, FreqsOf(tree1, desc.elems), forced)
    requires t.Shallow(desc.maxLength) ==> forall p :: 0 <= p < |t.order| ==>
               t.order[p] < |tree| && tree[t.order[p]].dl == t.Depth(p)
    requires !t.Shallow(desc.maxLength) ==> Falling(t, LensOf(tree, t.elems), 0, 0)
    ensures MergeTree(t, FreqsOf(tree2, |tree2|), FreqsOf(tree0, desc.elems), forced)
    ensures var f, len := FreqsOf(tree0, desc.elems), LensOf(tree, desc.elems);
            Steep(f, len) && CheapestIfShallow(t, f, desc, Cost(f, desc.Bits(len)))
  {
    hide Steep, CheapestIfShallow, Huffman, Carries, Merging.Shallow, Merging.Depth, Falling, Cost, Desc.Bits, Forced,
         SumAt;
    var w, f := FreqsOf(tree2, |tree2|), FreqsOf(tree0, desc.elems);
    assert w[..t.elems] == FreqsOf(tree2, desc.elems);
    ForcedMerge(t, w, f, forced);
    LengthsAreGood(t, w, f, forced, desc, LensOf(tree, desc.elems));
  }

  lemma BeyondMax(tree: seq<Node>, tree2: seq<Node>, t: Merging, desc: Desc, maxCode: nat, bl: Counts, opt: int,
                  stat: int)
    requires Ready(tree2, t, desc, maxCode) && Limited(tree, tree2, desc, bl, opt, stat)
    ensures maxCode < desc.elems && forall i :: maxCode < i < desc.elems ==> tree[i].dl == 0
  {
  }

  lemma AllForced(tree: seq<Node>, tree1: seq<Node>, tree2: seq<Node>, t: Merging, desc: Desc, maxCode: nat, bl: Counts,
                  opt: int, stat: int,
                  opt1: int, stat1: int, forced: seq<nat>)
    requires Ready(tree2, t, desc, maxCode) && Limited(tree, tree2, desc, bl, opt, stat) && Complete(bl, desc.maxLength)
    requires CodesFrom(bl, 1, desc.maxLength) == LeavesIn(t.order, t.elems)
    requires ForcedTo(tree1, tree2, desc, forced, opt1, stat1) && |forced| <= 2 && (forced != [] ==> t.leaves == 2)
    ensures forall i :: 0 <= i < |forced| ==> tree[forced[i]].dl == 1
    ensures FreqsOf(tree, desc.elems) == FreqsOf(tree2, desc.elems)
    ensures CodesFor(tree, FreqsOf(tree1, desc.elems), forced)
  {
    hide CodesFrom, Cost, Complete, CountOf, Desc.Bits, LeavesIn, Ready, SumAt;
    if forced != [] {
      forall x | 0 <= x < desc.elems && tree2[x].fc > 0 ensures tree[x].dl == 1 {
        ForcedLength(tree, tree2, t, desc, maxCode, bl, opt, stat, x);
      }
    }
    forall i | 0 <= i < desc.elems ensures tree2[i].fc > 0 <==> tree1[i].fc > 0 || i in forced {
      if i !in forced { ForcedAt(FreqsOf(tree1, desc.elems), forced, i); }
      assert FreqsOf(tree2, desc.elems)[i] == tree2[i].fc;
    }
  }
}
