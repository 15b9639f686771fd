/** Code lengths as a list of lengths and repeat counts (section 3.2.7 of RFC 1951), the way
    scan_tree and send_tree in zlib/trees.c divide them. */
module RunLengths {

  /** A length, or a repeat code with its count: codes 16, 17 and 18. */
  datatype Item = Len(len: nat) | REP_3_6(count: nat) | REPZ_3_10(count: nat) | REPZ_11_138(count: nat) {

    predicate Ok() {
      match this
      case Len(l) => l <= 15
      case REP_3_6(n) => 3 <= n <= 6
      case REPZ_3_10(n) => 3 <= n <= 10
      case REPZ_11_138(n) => 11 <= n <= 138
    }

    /** The symbol in the bit length tree. */
    function Symbol(): nat {
      match this
      case Len(l) => l
      case REP_3_6(_) => 16
      case REPZ_3_10(_) => 17
      case REPZ_11_138(_) => 18
    }
  }

  function Times(n: nat, x: nat): (s: seq<nat>)
    ensures |s| == n
  {
    seq(n, _ => x)
  }

  /** The lengths so far with an item added; a repeat of the previous length needs one. */
  function Unroll(so: seq<nat>, it: Item): seq<nat> {
    match it
    case Len(l) => so + [l]
    case REP_3_6(n) => if so == [] then so else so + Times(n, so[|so| - 1])
    case REPZ_3_10(n) => so + Times(n, 0)
    case REPZ_11_138(n) => so + Times(n, 0)
  }

  function UnrollAll(so: seq<nat>, items: seq<Item>): seq<nat>
    decreases |items|
  {
    if items == [] then so else UnrollAll(Unroll(so, items[0]), items[1..])
  }

  /** What scan_tree and send_tree do with a run of count lengths cur behind the length prev. */
  function Emit(cur: nat, prev: int, count: nat, min: nat): seq<Item>
    requires count >= 1
  {
    if count < min then seq(count, _ => Len(cur))
    else if cur != 0 then
      if cur != prev then [Len(cur), REP_3_6(count - 1)] else [REP_3_6(count)]
    else if count <= 10 then [REPZ_3_10(count)]
    else [REPZ_11_138(count)]
  }

  /** tree[max_code + 1].Len. */
  const GUARD := 0xffff

  function Next(lens: seq<nat>, n: nat): nat { if n < |lens| then lens[n] else GUARD }

  /** max_count and min_count for a run of the length next behind the length prev. */
  function MaxCount(next: nat, prev: int): nat { if next == 0 then 138 else if prev == next then 6 else 7 }
  function MinCount(next: nat, prev: int): nat { if next == 0 then 3 else if prev == next then 3 else 4 }

  /** The items for the lengths from n on, when count lengths before n wait to be sent. */
  function ItemsFrom(lens: seq<nat>, n: nat, prev: int, count: nat, max: nat, min: nat): seq<Item>
    decreases |lens| - n
  {
    if n >= |lens| then []
    else if count + 1 < max && lens[n] == Next(lens, n + 1) then ItemsFrom(lens, n + 1, prev, count + 1, max, min)
    else
      Emit(lens[n], prev, count + 1, min) +
      ItemsFrom(lens, n + 1, lens[n], 0, MaxCount(Next(lens, n + 1), lens[n]), MinCount(Next(lens, n + 1), lens[n]))
  }

  /** The items for a tree. */
  function Items(lens: seq<nat>): seq<Item> {
    ItemsFrom(lens, 0, -1, 0, MaxCount(Next(lens, 0), -1), MinCount(Next(lens, 0), -1))
  }

  /** The state of the loop before length n: a run of count equal lengths waits, less than fits
      into one item. */
  ghost predicate Scanning(lens: seq<nat>, n: nat, prev: int, count: nat, max: nat, min: nat) {
    && count <= n <= |lens| && (forall i :: 0 <= i < |lens| ==> lens[i] <= 15)
    && prev == (if n - count > 0 then lens[n - count - 1] else -1)
    && (forall i :: n - count <= i < n ==> lens[i] == Next(lens, n))
    && max == MaxCount(Next(lens, n), prev) && min == MinCount(Next(lens, n), prev) && count < max
  }

  lemma ScanStart(lens: seq<nat>)
    requires forall i :: 0 <= i < |lens| ==> lens[i] <= 15
    ensures Scanning(lens, 0, -1, 0, MaxCount(Next(lens, 0), -1), MinCount(Next(lens, 0), -1))
  {
  }

  lemma ScanStep(lens: seq<nat>, n: nat, prev: int, count: nat, max: nat, min: nat)
    requires Scanning(lens, n, prev, count, max, min) && n < |lens|
    ensures count + 1 < max && lens[n] == Next(lens, n + 1) ==> Scanning(lens, n + 1, prev, count + 1, max, min)
    ensures !(count + 1 < max && lens[n] == Next(lens, n + 1)) ==>
              Scanning(lens, n + 1, lens[n], 0, MaxCount(Next(lens, n + 1), lens[n]),
                MinCount(Next(lens, n + 1), lens[n]))
  {
  }

  /** Every repeat of the previous length has a previous length. */
  ghost predicate Grounded(so: seq<nat>, items: seq<Item>)
    decreases |items|
  {
    items == [] || ((items[0].REP_3_6? ==> so != []) && Grounded(Unroll(so, items[0]), items[1..]))
  }

  lemma {:induction false} GroundedConcat(so: seq<nat>, a: seq<Item>, b: seq<Item>)
    requires Grounded(so, a) && Grounded(UnrollAll(so, a), b)
    ensures Grounded(so, a + b)
    decreases |a|
  {
    if a == [] {
      assert a + b == b;
    } else {
      assert (a + b)[1..] == a[1..] + b;
      GroundedConcat(Unroll(so, a[0]), a[1..], b);
    }
  }

  lemma {:induction false} LensGrounded(so: seq<nat>, n: nat, x: nat)
    ensures Grounded(so, seq(n, _ => Len(x)))
    decreases n
  {
    var items := seq(n, _ => Len(x));
    if n > 0 {
      assert items[1..] == seq(n - 1, _ => Len(x));
      LensGrounded(so + [x], n - 1, x);
    }
  }

  lemma {:induction false} UnrollGrows(so: seq<nat>, items: seq<Item>)
    ensures |so| <= |UnrollAll(so, items)|
    decreases |items|
  {
    if items != [] { UnrollGrows(Unroll(so, items[0]), items[1..]); }
  }

  lemma {:induction false} UnrollConcat(so: seq<nat>, a: seq<Item>, b: seq<Item>)
    ensures UnrollAll(so, a + b) == UnrollAll(UnrollAll(so, a), b)
    decreases |a|
  {
    if a == [] {
      assert a + b == b;
    } else {
      assert (a + b)[1..] == a[1..] + b;
      UnrollConcat(Unroll(so, a[0]), a[1..], b);
    }
  }

  lemma {:induction false} UnrollLens(so: seq<nat>, n: nat, x: nat)
    ensures UnrollAll(so, seq(n, _ => Len(x))) == so + Times(n, x)
    decreases n
  {
    var items := seq(n, _ => Len(x));
    if n > 0 {
      assert items[1..] == seq(n - 1, _ => Len(x));
      UnrollLens(so + [x], n - 1, x);
      assert so + [x] + Times(n - 1, x) == so + Times(n, x);
    }
  }

  /** An emitted run unrolls to the run, behind anything that ends with prev. */
  lemma EmitUnrolls(so: seq<nat>, cur: nat, prev: int, count: nat, max: nat, min: nat)
    requires 1 <= count <= max == MaxCount(cur, prev) && min == MinCount(cur, prev) && cur <= 15
    requires prev >= 0 ==> so != [] && so[|so| - 1] == prev
    ensures UnrollAll(so, Emit(cur, prev, count, min)) == so + Times(count, cur) &&
            Grounded(so, Emit(cur, prev, count, min))
    ensures forall i :: 0 <= i < |Emit(cur, prev, count, min)| ==> Emit(cur, prev, count, min)[i].Ok()
  {
    var items := Emit(cur, prev, count, min);
    if count < min {
      UnrollLens(so, count, cur);
      LensGrounded(so, count, cur);
    } else if cur != 0 && cur != prev {
      assert items[1..] == [REP_3_6(count - 1)] && items[1..][1..] == [];
      assert Unroll(so + [cur], items[1]) == so + [cur] + Times(count - 1, cur);
      assert so + [cur] + Times(count - 1, cur) == so + Times(count, cur);
      assert UnrollAll(so + [cur], items[1..]) == so + Times(count, cur);
      assert Grounded(so + [cur], items[1..]);
    } else {
      assert items[1..] == [];
    }
  }

  /** The items say exactly the lengths. */
  lemma {:induction false} ItemsFromUnroll(p: seq<nat>, lens: seq<nat>, n: nat, prev: int, count: nat, max: nat,
                                           min: nat)
    requires Scanning(lens, n, prev, count, max, min) && (n == |lens| ==> count == 0)
    ensures UnrollAll(p + lens[..n - count], ItemsFrom(lens, n, prev, count, max, min)) == p + lens
    ensures Grounded(p + lens[..n - count], ItemsFrom(lens, n, prev, count, max, min))
    ensures forall i :: 0 <= i < |ItemsFrom(lens, n, prev, count, max, min)| ==>
              ItemsFrom(lens, n, prev, count, max, min)[i].Ok()
    decreases |lens| - n
  {
    hide Emit, UnrollAll, Grounded;
    if n == |lens| {
      assert lens[..n] == lens;
      UnrollNone(p + lens);
    } else {
      ScanStep(lens, n, prev, count, max, min);
      if count + 1 < max && lens[n] == Next(lens, n + 1) {
        ItemsFromUnroll(p, lens, n + 1, prev, count + 1, max, min);
      } else {
        var so, cur := p + lens[..n - count], lens[n];
        var max', min' := MaxCount(Next(lens, n + 1), cur), MinCount(Next(lens, n + 1), cur);
        EmitUnrolls(so, cur, prev, count + 1, max, min);
        assert lens[..n + 1] == lens[..n - count] + Times(count + 1, cur);
        assert so + Times(count + 1, cur) == p + lens[..n + 1 - 0];
        ItemsFromUnroll(p, lens, n + 1, cur, 0, max', min');
        UnrollConcat(so, Emit(cur, prev, count + 1, min), ItemsFrom(lens, n + 1, cur, 0, max', min'));
        GroundedConcat(so, Emit(cur, prev, count + 1, min), ItemsFrom(lens, n + 1, cur, 0, max', min'));
      }
    }
  }

  lemma UnrollNone(so: seq<nat>)
    ensures UnrollAll(so, []) == so && Grounded(so, [])
  {
  }

  /** Reading the items of a tree behind the lengths p gives back the lengths. */
  lemma ItemsUnroll(p: seq<nat>, lens: seq<nat>)
    requires forall i :: 0 <= i < |lens| ==> lens[i] <= 15
    ensures UnrollAll(p, Items(lens)) == p + lens && Grounded(p, Items(lens))
    ensures forall i :: 0 <= i < |Items(lens)| ==> Items(lens)[i].Ok()
  {
    ScanStart(lens);
    assert p + lens[..0] == p;
    ItemsFromUnroll(p, lens, 0, -1, 0, MaxCount(Next(lens, 0), -1), MinCount(Next(lens, 0), -1));
  }
}
