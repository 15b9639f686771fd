/** The header of a dynamic block: what send_all_trees in zlib/trees.c writes, the decoder reads
    back. */
module TreeHeader {
  import opened Arith
  import opened BitStrings
  import opened BitStream
  import opened BitOutput
  import opened StringHash
  import opened Canonical
  import opened SymbolCodes
  import opened CodeReading
  import opened CopyCodes
  import opened BlockFields
  import opened TreeCodes
  import opened Decoder
  import opened RunsTo
  import opened BlockBody
  import opened RunLengths

  /** Lengths of a complete set of bit length codes, at most 7 each. */
  ghost predicate BitLens(bl: seq<nat>) {
    |bl| == 19 && (forall i :: 0 <= i < 19 ==> bl[i] <= 7) && Full(bl)
  }

  /** An item whose symbol has a code. */
  ghost predicate Sendable(bl: seq<nat>, it: Item) {
    it.Ok() && |bl| == 19 && bl[it.Symbol()] > 0 && BitLens(bl)
  }

  /** The bits of an item: the symbol's code and the count. */
  ghost function ItemBits(bl: seq<nat>, it: Item): Bits
    requires Sendable(bl, it)
  {
    hide Full;
    CodeBits(bl, it.Symbol()) +
    match it
    case Len(_) => []
    case REP_3_6(n) => BitsOf(n - 3, 2)
    case REPZ_3_10(n) => BitsOf(n - 3, 3)
    case REPZ_11_138(n) => BitsOf(n - 11, 7)
  }

  ghost predicate AllSendable(bl: seq<nat>, items: seq<Item>) {
    forall i :: 0 <= i < |items| ==> Sendable(bl, items[i])
  }

  ghost function ItemsBits(bl: seq<nat>, items: seq<Item>): Bits
    requires AllSendable(bl, items)
    decreases |items|
  {
    if items == [] then [] else ItemBits(bl, items[0]) + ItemsBits(bl, items[1..])
  }

  lemma {:induction false} ItemsBitsConcat(bl: seq<nat>, a: seq<Item>, b: seq<Item>)
    requires AllSendable(bl, a) && AllSendable(bl, b)
    ensures AllSendable(bl, a + b) && ItemsBits(bl, a + b) == ItemsBits(bl, a) + ItemsBits(bl, b)
    decreases |a|
  {
    hide ItemBits, Sendable;
    if a == [] {
      assert a + b == b;
    } else {
      assert (a + b)[1..] == a[1..] + b;
      ItemsBitsConcat(bl, a[1..], b);
    }
  }

  /** send_bits for one item. */
  method SendItem(w: BitWriter, bltree: seq<Node>, it: Item, ghost bl: seq<nat>)
    requires w.Valid() && TreeFor(bltree, bl) && Sendable(bl, it)
    modifies w`pendingBuf, w`biBuf, w`biValid
    ensures w.Valid() && w.Sent() == old(w.Sent()) + ItemBits(bl, it)
  {
    hide CodeBits, BitsOf, BitWriter.Sent, Coded, Pow2, Kraft;
    ghost var sent := w.Sent();
    SmallPowers();
    SendCode(w, bltree, it.Symbol(), bl);
    match it {
      case Len(_) =>
        assert CodeBits(bl, it.Symbol()) + [] == CodeBits(bl, it.Symbol());
      case REP_3_6(n) => w.SendBits(n - 3, 2);
      case REPZ_3_10(n) => w.SendBits(n - 3, 3);
      case REPZ_11_138(n) => w.SendBits(n - 11, 7);
    }
  }

  lemma SmallPowers()
    ensures Pow2(2) == 4 && Pow2(3) == 8 && Pow2(4) == 16 && Pow2(5) == 32 && Pow2(7) == 128
  {
  }

  /** send_tree, when a run ends. */
  method SendRun(w: BitWriter, bltree: seq<Node>, cur: nat, prev: int, count: nat, min: nat, ghost bl: seq<nat>)
    requires w.Valid() && TreeFor(bltree, bl) && count >= 1 && AllSendable(bl, Emit(cur, prev, count, min))
    modifies w`pendingBuf, w`biBuf, w`biValid
    ensures w.Valid() && w.Sent() == old(w.Sent()) + ItemsBits(bl, Emit(cur, prev, count, min))
  {
    hide BitWriter.Sent, BitWriter.Valid, ItemBits, Sendable, Coded;
    ghost var items, sent := Emit(cur, prev, count, min), w.Sent();
    if count < min {
      var i := count;
      while i > 0
        invariant 0 <= i <= count && w.Valid() &&
                  w.Sent() + ItemsBits(bl, items[count - i..]) == sent + ItemsBits(bl, items)
      {
        assert items[count - i..][1..] == items[count - i + 1..];
        assert items[count - i] == Len(cur);
        Assoc(w.Sent(), ItemBits(bl, Len(cur)), ItemsBits(bl, items[count - i + 1..]));
        SendItem(w, bltree, Len(cur), bl);
        i := i - 1;
      }
      assert items[count..] == [];
      assert w.Sent() + [] == w.Sent();
    } else if cur != 0 {
      var n := count;
      if cur != prev {
        assert items[0] == Len(cur) && items[1..] == [items[1]];
        SendItem(w, bltree, Len(cur), bl);
        n := n - 1;
      }
      OneItem(bl, items[|items| - 1]);
      SendItem(w, bltree, REP_3_6(n), bl);
      assert w.Sent() == sent + ItemsBits(bl, items);
    } else if count <= 10 {
      assert items == [REPZ_3_10(count)] && items[0] == REPZ_3_10(count);
      OneItem(bl, REPZ_3_10(count));
      SendItem(w, bltree, REPZ_3_10(count), bl);
    } else {
      assert items == [REPZ_11_138(count)] && items[0] == REPZ_11_138(count);
      OneItem(bl, REPZ_11_138(count));
      SendItem(w, bltree, REPZ_11_138(count), bl);
    }
  }

  lemma OneItem(bl: seq<nat>, it: Item)
    requires Sendable(bl, it)
    ensures ItemsBits(bl, [it]) == ItemBits(bl, it)
  {
    hide ItemBits, Sendable;
    assert [it][1..] == [];
    assert ItemBits(bl, it) + [] == ItemBits(bl, it);
  }

  /** send_tree: the lengths of a tree, with repeat codes. */
  method SendTree(w: BitWriter, bltree: seq<Node>, lens: seq<nat>, ghost bl: seq<nat>)
    requires w.Valid() && TreeFor(bltree, bl) && AllSendable(bl, Items(lens)) && lens != []
    modifies w`pendingBuf, w`biBuf, w`biValid
    ensures w.Valid() && w.Sent() == old(w.Sent()) + ItemsBits(bl, Items(lens))
  {
    hide BitWriter.Sent, BitWriter.Valid, ItemBits, ItemsBits, Sendable, Emit, Coded;
    ghost var sent := w.Sent();
    var prev: int, next, count, max, min := -1, lens[0], 0, 7, 4;
    if next == 0 { max, min := 138, 3; }
    var n := 0;
    while n < |lens|
      invariant 0 <= n <= |lens| && next == Next(lens, n) && w.Valid() && count >= 0 && max >= 0 && min >= 0
      invariant AllSendable(bl, ItemsFrom(lens, n, prev, count, max, min))
      invariant w.Sent() + ItemsBits(bl, ItemsFrom(lens, n, prev, count, max, min)) == sent + ItemsBits(bl, Items(lens))
    {
      var cur := next;
      next := if n + 1 < |lens| then lens[n + 1] else GUARD;
      count := count + 1;
      if !(count < max && cur == next) {
        var max', min' := 7, 4;
        if next == 0 { max', min' := 138, 3; } else if cur == next { max', min' := 6, 3; }
        ghost var run, rest := Emit(cur, prev, count, min), ItemsFrom(lens, n + 1, cur, 0, max', min');
        PartsSendable(bl, run, rest);
        ItemsBitsConcat(bl, run, rest);
        Assoc(w.Sent(), ItemsBits(bl, run), ItemsBits(bl, rest));
        SendRun(w, bltree, cur, prev, count, min, bl);
        count, prev, max, min := 0, cur, max', min';
      }
      n := n + 1;
    }
    NoItems(bl);
    assert w.Sent() + [] == w.Sent();
  }

  lemma NoItems(bl: seq<nat>)
    ensures ItemsBits(bl, []) == []
  {
  }

  lemma PartsSendable(bl: seq<nat>, a: seq<Item>, b: seq<Item>)
    requires AllSendable(bl, a + b)
    ensures AllSendable(bl, a) && AllSendable(bl, b)
  {
    hide Sendable;
    forall i | 0 <= i < |a| ensures Sendable(bl, a[i]) { assert (a + b)[i] == a[i]; }
    forall i | 0 <= i < |b| ensures Sendable(bl, b[i]) { assert (a + b)[|a| + i] == b[i]; }
  }

  /** A complete set of codes can be decoded. */
  lemma CompleteIsUsable(b: seq<nat>)
    requires Full(b)
    ensures Usable(b) && SomeCode(b)
  {
    hide Kraft;
    if !SomeCode(b) { NullKraft(b); }
    Pow2Positive(MAX_BITS);
  }

  /** A bit length code in the stream is read as that code. */
  lemma BlRead(bl: seq<nat>, sym: nat, bits: Bits, pos: nat)
    requires BitLens(bl) && sym < 19 && bl[sym] > 0 && BitsAt(bits, pos, CodeBits(bl, sym))
    ensures Usable(bl) && SomeCode(bl) && BlCode(bl, bits, pos) == (sym, bl[sym])
  {
    hide Kraft, Pow2, CodeBits, SymbolAt;
    CompleteIsUsable(bl);
    SymbolRead(bl, sym, bits, pos);
  }

  lemma {:induction false} FillIs(blens: seq<nat>, i: nat, n: nat, c: nat)
    requires i + n <= |blens|
    ensures Fill(blens, i, n, c)[..i + n] == blens[..i] + Times(n, c)
    ensures Fill(blens, i, n, c)[i + n..] == blens[i + n..]
    decreases n
  {
    if n > 0 {
      FillIs(blens[i := c], i + 1, n - 1, c);
      assert blens[i := c][..i + 1] + Times(n - 1, c) == blens[..i] + Times(n, c);
    }
  }

  /** What reading an item makes of the state s. */
  ghost predicate ReadItem(s: State, t: State, bits: Bits, it: Item)
    requires s.mode.CodeLengths? && s.mode.index <= |s.mode.blens|
  {
    && t.mode.CodeLengths? && t.mode.table == s.mode.table && t.mode.bl == s.mode.bl && |t.mode.blens| == |s.mode.blens|
    && t.mode.index <= |t.mode.blens| && t.mode.blens[..t.mode.index] == Unroll(s.mode.blens[..s.mode.index], it)
    && t.pos == s.pos + |bits| && t.text == s.text && t.last == s.last
  }

  lemma RunLen(env: Env, s: State, l: nat)
    requires StateOk(env, s) && s.mode.CodeLengths? && s.mode.index < |s.mode.blens| && Sendable(s.mode.bl, Len(l))
    requires BitsAt(env.bits, s.pos, ItemBits(s.mode.bl, Len(l)))
    ensures ReadItem(s, Step(env, s), ItemBits(s.mode.bl, Len(l)), Len(l))
  {
    hide CodeBits, Kraft, Pow2, Usable, SomeCode, BlCode, RepeatStep;
    var bl := s.mode.bl;
    assert ItemBits(bl, Len(l)) == CodeBits(bl, l);
    BlRead(bl, l, env.bits, s.pos);
    var so, blens := s.mode.blens[..s.mode.index], s.mode.blens[s.mode.index := l];
    assert blens[..s.mode.index + 1] == so + [l];
  }

  lemma ItemParts(bl: seq<nat>, it: Item)
    requires Sendable(bl, it) && !it.Len?
    ensures var n, extra := it.count - RepeatBase(it.Symbol()), RepeatBits(it.Symbol());
            0 <= n < Pow2(extra) && ItemBits(bl, it) == CodeBits(bl, it.Symbol()) + BitsOf(n, extra)
    ensures 16 <= it.Symbol() <= 18 && it.count >= 1
  {
    hide CodeBits, BitsOf, Pow2;
    SmallPowers();
  }

  /** The count behind a repeat code, and the lengths it fills in. */
  lemma RepeatRead(env: Env, s: State, it: Item, len: nat)
    requires StateOk(env, s) && s.mode.CodeLengths? && it.Ok() && !it.Len? && s.mode.index < |s.mode.blens|
    requires s.mode.index + it.count <= |s.mode.blens| && (it.REP_3_6? ==> s.mode.index > 0)
    requires 0 <= it.count - RepeatBase(it.Symbol()) < Pow2(RepeatBits(it.Symbol()))
    requires BitsAt(env.bits, s.pos + len, BitsOf(it.count - RepeatBase(it.Symbol()), RepeatBits(it.Symbol())))
    ensures var t := RepeatStep(env, s, it.Symbol(), len);
            t.mode.CodeLengths? && t.mode.index <= |t.mode.blens| &&
            t == s.(mode := CodeLengths(s.mode.table, t.mode.index, t.mode.blens, s.mode.bl),
              pos := s.pos + len + RepeatBits(it.Symbol())) &&
            |t.mode.blens| == |s.mode.blens| && t.mode.blens[..t.mode.index] == Unroll(s.mode.blens[..s.mode.index], it)
  {
    hide BitsOf, Peek, Fill, Kraft, Pow2, Times, RepeatBits, RepeatBase, Usable, SomeCode;
    var sym := it.Symbol();
    var n, extra := it.count - RepeatBase(sym), RepeatBits(sym);
    NumberAt(env.bits, s.pos + len, n, extra);
    FillIs(s.mode.blens, s.mode.index, it.count, if sym == 16 then s.mode.blens[s.mode.index - 1] else 0);
  }

  lemma RunRepeat(env: Env, s: State, it: Item)
    requires StateOk(env, s) && s.mode.CodeLengths? && Sendable(s.mode.bl, it) && !it.Len?
    requires s.mode.index + it.count <= |s.mode.blens| && (it.REP_3_6? ==> s.mode.index > 0)
    requires BitsAt(env.bits, s.pos, ItemBits(s.mode.bl, it))
    ensures ReadItem(s, Step(env, s), ItemBits(s.mode.bl, it), it)
  {
    hide CodeBits, BitsOf, Peek, Fill, Kraft, Pow2, Times, ItemBits, RepeatBits, RepeatBase, Usable, SomeCode, BlCode,
         RepeatStep, Unroll;
    var bl, sym := s.mode.bl, it.Symbol();
    ItemParts(bl, it);
    BitsAtSplit(env.bits, s.pos, CodeBits(bl, sym), BitsOf(it.count - RepeatBase(sym), RepeatBits(sym)));
    BlRead(bl, sym, env.bits, s.pos);
    RepeatRead(env, s, it, bl[sym]);
  }

  /** Items are read as they unroll. */
  lemma {:induction false} RunItems(env: Env, s: State, bl: seq<nat>, items: seq<Item>) returns (t: State)
    requires StateOk(env, s) && s.mode.CodeLengths? && s.mode.bl == bl && AllSendable(bl, items) &&
             s.mode.index <= |s.mode.blens|
    requires |UnrollAll(s.mode.blens[..s.mode.index], items)| <= |s.mode.blens| &&
             Grounded(s.mode.blens[..s.mode.index], items)
    requires BitsAt(env.bits, s.pos, ItemsBits(bl, items))
    ensures StateOk(env, t) && Reaches(env, s, t)
    ensures t.mode.CodeLengths? && t.mode.table == s.mode.table && t.mode.bl == bl && |t.mode.blens| == |s.mode.blens|
    ensures t.mode.index <= |t.mode.blens| &&
            t.mode.blens[..t.mode.index] == UnrollAll(s.mode.blens[..s.mode.index], items)
    ensures t.pos == s.pos + |ItemsBits(bl, items)| && t.text == s.text && t.last == s.last
    decreases |items|
  {
    hide ItemBits, Reaches, StateOk, Sendable, Unroll, Step;
    if items == [] {
      ReachSelf(env, s);
      t := s;
    } else {
      var so, it := s.mode.blens[..s.mode.index], items[0];
      UnrollGrows(Unroll(so, it), items[1..]);
      BitsAtSplit(env.bits, s.pos, ItemBits(bl, it), ItemsBits(bl, items[1..]));
      UnrollLonger(so, it, bl);
      if it.Len? { RunLen(env, s, it.len); } else { RunRepeat(env, s, it); }
      ReachStep(env, s);
      var u := Step(env, s);
      t := RunItems(env, u, bl, items[1..]);
      ReachTrans(env, s, u, t);
    }
  }

  lemma UnrollLonger(so: seq<nat>, it: Item, bl: seq<nat>)
    requires Sendable(bl, it) && (it.REP_3_6? ==> so != [])
    ensures |Unroll(so, it)| == |so| + (if it.Len? then 1 else it.count)
  {
  }

  const bl_order: seq<nat> := [16, 17, 18, 0, 8, 7, 9, 6, 10, 5, 11, 4, 12, 3, 13, 2, 14, 1, 15]

  /** Every bit length code is in the order once. */
  lemma InOrder(i: nat) returns (r: nat)
    requires i < 19
    ensures r < 19 && bl_order[r] == i && border[r] == i
  {
    var inverse := [3, 17, 15, 13, 11, 9, 7, 5, 4, 6, 8, 10, 12, 14, 16, 18, 0, 1, 2];
    r := inverse[i];
  }

  lemma OrderIs(r: nat)
    requires r < 19
    ensures |bl_order| == |border| == 19 && bl_order[r] == border[r] < 19
  {
  }

  /** build_bl_tree: the index of the last bit length code to send, at least 3. */
  method LastBitCode(bl: seq<nat>) returns (k: nat)
    requires |bl| == 19
    ensures 3 <= k <= 18 && forall r :: k < r < 19 ==> bl_order[r] < 19 && bl[bl_order[r]] == 0
    ensures k == 3 || (bl_order[k] < 19 && bl[bl_order[k]] != 0)
  {
    hide bl_order;
    k := 18;
    OrderIs(k);
    while k > 3 && bl[bl_order[k]] == 0
      invariant 3 <= k <= 18 && bl_order[k] < 19 && forall r :: k < r < 19 ==> bl_order[r] < 19 && bl[bl_order[r]] == 0
    {
      OrderIs(k - 1);
      k := k - 1;
    }
  }

  /** The lengths of the first n bit length codes in order. */
  ghost function OrderBits(bl: seq<nat>, n: nat): (s: Bits)
    requires |bl| == 19 && n <= 19
    ensures |s| == 3 * n
  {
    if n == 0 then [] else OrderIs(n - 1); OrderBits(bl, n - 1) + BitsOf(bl[bl_order[n - 1]], 3)
  }

  ghost function CountBits(lcodes: nat, dcodes: nat, blcodes: nat): (s: Bits)
    requires 257 <= lcodes && 1 <= dcodes && 4 <= blcodes
    ensures |s| == 14
  {
    BitsOf(lcodes - 257, 5) + (BitsOf(dcodes - 1, 5) + BitsOf(blcodes - 4, 4))
  }

  /** What a header is made of. */
  ghost predicate Header(ll: seq<nat>, dl: seq<nat>, bl: seq<nat>, blcodes: nat) {
    && 257 <= |ll| <= 286 && 1 <= |dl| <= 30 && 4 <= blcodes <= 19 && BitLens(bl)
    && Lengths(ll) && Lengths(dl) && Full(ll) && Full(dl)
    && AllSendable(bl, Items(ll)) && AllSendable(bl, Items(dl))
    && (forall r :: blcodes <= r < 19 ==> bl_order[r] < 19 && bl[bl_order[r]] == 0)
    && (blcodes == 4 || (bl_order[blcodes - 1] < 19 && bl[bl_order[blcodes - 1]] != 0))
    && ll[|ll| - 1] > 0 && dl[|dl| - 1] > 0
  }

  ghost function HeaderBits(ll: seq<nat>, dl: seq<nat>, bl: seq<nat>, blcodes: nat): Bits
    requires Header(ll, dl, bl, blcodes)
  {
    CountBits(|ll|, |dl|, blcodes) + (OrderBits(bl, blcodes) + (ItemsBits(bl, Items(ll)) + ItemsBits(bl, Items(dl))))
  }

  /** send_all_trees. */
  method SendAllTrees(w: BitWriter, ll: seq<nat>, dl: seq<nat>, bltree: seq<Node>, blcodes: nat, ghost bl: seq<nat>)
    requires w.Valid() && TreeFor(bltree, bl) && Header(ll, dl, bl, blcodes)
    modifies w`pendingBuf, w`biBuf, w`biValid
    ensures w.Valid() && w.Sent() == old(w.Sent()) + HeaderBits(ll, dl, bl, blcodes)
  {
    hide BitWriter.Sent, BitWriter.Valid, ItemsBits, Items, Coded, BitsOf, AllSendable, Kraft, OrderBits, Pow2;
    SmallPowers();
    ghost var sent := w.Sent();
    w.SendBits(|ll| - 257, 5);
    w.SendBits(|dl| - 1, 5);
    w.SendBits(blcodes - 4, 4);
    ghost var counts := CountBits(|ll|, |dl|, blcodes);
    assert w.Sent() == sent + counts;
    SendOrder(w, bltree, blcodes, bl);
    SendTree(w, bltree, ll, bl);
    SendTree(w, bltree, dl, bl);
    FourParts(sent, counts, OrderBits(bl, blcodes), ItemsBits(bl, Items(ll)), ItemsBits(bl, Items(dl)));
  }

  /** The lengths of the bit length codes, in the order in which they are likely to occur. */
  method SendOrder(w: BitWriter, bltree: seq<Node>, blcodes: nat, ghost bl: seq<nat>)
    requires w.Valid() && TreeFor(bltree, bl) && BitLens(bl) && blcodes <= 19
    modifies w`pendingBuf, w`biBuf, w`biValid
    ensures w.Valid() && w.Sent() == old(w.Sent()) + OrderBits(bl, blcodes)
  {
    hide BitWriter.Sent, BitWriter.Valid, BitsOf, Kraft, bl_order, Pow2;
    SmallPowers();
    ghost var sent := w.Sent();
    var rank := 0;
    assert sent + [] == sent;
    while rank < blcodes
      invariant 0 <= rank <= blcodes && w.Valid() && w.Sent() == sent + OrderBits(bl, rank)
    {
      OrderIs(rank);
      w.SendBits(bltree[bl_order[rank]].dl, 3);
      Assoc(sent, OrderBits(bl, rank), BitsOf(bl[bl_order[rank]], 3));
      rank := rank + 1;
    }
  }

  lemma FourParts(s: Bits, a: Bits, b: Bits, c: Bits, d: Bits)
    ensures s + a + b + c + d == s + (a + (b + (c + d)))
  {
  }

  /** The counts. */
  lemma RunCounts(env: Env, s: State, lcodes: nat, dcodes: nat, blcodes: nat)
    requires StateOk(env, s) && s.mode.TreeCounts? && 257 <= lcodes <= 286 && 1 <= dcodes <= 30 && 4 <= blcodes <= 19
    requires BitsAt(env.bits, s.pos, CountBits(lcodes, dcodes, blcodes))
    ensures var t := lcodes - 257 + 32 * (dcodes - 1) + 1024 * (blcodes - 4);
            && LengthCodes(t) == lcodes && DistCodes(t) == dcodes && BitCodes(t) == blcodes
            && Step(env, s) == s.(mode := BitLengths(t, 0, Zeros(TotalCodes(t))), pos := s.pos + 14)
  {
    hide Peek, BitsOf, Pow2, Shl;
    var a, b, c := lcodes - 257, dcodes - 1, blcodes - 4;
    SmallPowers();
    Shifts(b, c);
    BitsJoin(b, c, 5, 4);
    BitsJoin(a, b + 32 * c, 5, 9);
    Fourteen(a, b, c);
    CountsBack(a, b, c);
    NumberAt(env.bits, s.pos, a + 32 * (b + 32 * c), 14);
  }

  lemma Shifts(b: nat, c: nat)
    ensures Shl(c, 5) == 32 * c && Shl(b + 32 * c, 5) == 32 * (b + 32 * c)
  {
    SmallPowers();
    ShlIsProduct(c, 5);
    ShlIsProduct(b + 32 * c, 5);
  }

  lemma CountsBack(a: nat, b: nat, c: nat)
    requires a < 32 && b < 32 && c < 16
    ensures var t := a + 32 * (b + 32 * c); t % 32 == a && t / 32 % 32 == b && t / 1024 == c
  {
    var t := a + 32 * (b + 32 * c);
    assert t / 32 == b + 32 * c;
  }

  lemma Fourteen(a: nat, b: nat, c: nat)
    requires a < 32 && b < 32 && c < 16
    ensures a + 32 * (b + 32 * c) < Pow2(14)
  {
    assert Pow2(7) == 128;
    assert Pow2(14) == 16384;
  }

  /** The first n lengths of the bit length codes have been read. */
  ghost predicate HasOrder(blens: seq<nat>, bl: seq<nat>, n: nat) {
    |blens| >= 19 && |bl| == 19 && n <= 19 && forall r :: 0 <= r < n ==>
      border[r] < 19 && blens[border[r]] == bl[border[r]]
  }

  lemma OrderDiffers(i: nat, j: nat)
    requires i < 19 && j < 19 && border[i] == border[j]
    ensures i == j
  {
  }

  lemma HasOneMore(blens: seq<nat>, bl: seq<nat>, n: nat)
    requires HasOrder(blens, bl, n) && n < 19
    ensures border[n] < 19 && HasOrder(blens[border[n] := bl[border[n]]], bl, n + 1)
  {
    hide border;
    OrderIs(n);
    forall r | 0 <= r < n ensures border[r] < 19 && border[r] != border[n] {
      OrderIs(r);
      if border[r] == border[n] { OrderDiffers(r, n); }
    }
  }

  lemma {:induction false} ZeroRestHas(blens: seq<nat>, bl: seq<nat>, n: nat)
    requires HasOrder(blens, bl, n) && forall r :: n <= r < 19 ==> bl_order[r] < 19 && bl[bl_order[r]] == 0
    ensures HasOrder(ZeroRest(blens, n), bl, 19)
    decreases 19 - n
  {
    hide border, bl_order;
    if n < 19 {
      OrderIs(n);
      HasOneMore(blens, bl, n);
      ZeroRestHas(blens[border[n] := 0], bl, n + 1);
    }
  }

  lemma AllOrdered(blens: seq<nat>, bl: seq<nat>)
    requires HasOrder(blens, bl, 19)
    ensures blens[..19] == bl
  {
    hide border, bl_order;
    forall i | 0 <= i < 19 ensures blens[i] == bl[i] { var r := InOrder(i); }
  }

  /** The lengths of the bit length codes. */
  lemma {:induction false} RunBitLengths(env: Env, s: State, bl: seq<nat>, n: nat) returns (blens: seq<nat>)
    requires StateOk(env, s) && s.mode.BitLengths? && BitLens(bl)
    requires s.mode.index == n && HasOrder(s.mode.blens, bl, n)
    requires forall r :: BitCodes(s.mode.table) <= r < 19 ==> bl_order[r] < 19 && bl[bl_order[r]] == 0
    requires s.pos >= 3 * n && BitCodes(s.mode.table) <= 19 && n <= BitCodes(s.mode.table)
    requires BitsAt(env.bits, s.pos - 3 * n, OrderBits(bl, BitCodes(s.mode.table)))
    ensures |blens| == |s.mode.blens|
    ensures var t := s.(mode := CodeLengths(s.mode.table, 0, blens, bl),
            pos := s.pos + 3 * (BitCodes(s.mode.table) - n));
            StateOk(env, t) && Reaches(env, s, t)
    decreases 19 - n
  {
    hide border, bl_order, Peek, OrderBits, BitsOf, Reaches, Kraft, ZeroRest, Pow2, Usable, SomeCode;
    ReachStep(env, s);
    var total, start := BitCodes(s.mode.table), s.pos - 3 * n;
    if n < total {
      OrderIs(n);
      OrderPart(bl, n, total, env.bits, start);
      SmallPowers();
      NumberAt(env.bits, s.pos, bl[bl_order[n]], 3);
      HasOneMore(s.mode.blens, bl, n);
      var t := Step(env, s);
      assert t == s.(mode := BitLengths(s.mode.table, n + 1, s.mode.blens[border[n] := bl[border[n]]]),
             pos := s.pos + 3);
      blens := RunBitLengths(env, t, bl, n + 1);
      ReachTrans(env, s, t, s.(mode := CodeLengths(s.mode.table, 0, blens, bl), pos := s.pos + 3 * (total - n)));
    } else {
      ZeroRestHas(s.mode.blens, bl, n);
      blens := ZeroRest(s.mode.blens, n);
      AllOrdered(blens, bl);
      CompleteIsUsable(bl);
    }
  }

  /** The n-th length is in the stream where it should be. */
  lemma {:induction false} OrderPart(bl: seq<nat>, n: nat, total: nat, bits: Bits, start: nat)
    requires |bl| == 19 && n < total <= 19 && BitsAt(bits, start, OrderBits(bl, total))
    ensures bl_order[n] < 19 && BitsAt(bits, start + 3 * n, BitsOf(bl[bl_order[n]], 3))
    decreases total
  {
    hide bl_order, BitsOf;
    OrderIs(total - 1);
    BitsAtSplit(bits, start, OrderBits(bl, total - 1), BitsOf(bl[bl_order[total - 1]], 3));
    if n < total - 1 { OrderPart(bl, n, total - 1, bits, start); }
  }

  /** The lengths of both trees are accepted. */
  lemma BothAccepted(ll: seq<nat>, dl: seq<nat>)
    requires Full(ll) && Full(dl)
    ensures Accepted(|ll|, ll + dl)
  {
    hide Kraft, Pow2, Usable, SomeCode;
    assert (ll + dl)[..|ll|] == ll && (ll + dl)[|ll|..] == dl;
    CompleteIsUsable(ll); CompleteIsUsable(dl);
  }

  /** All lengths of both trees. */
  lemma RunCodeLengths(env: Env, s: State, ll: seq<nat>, dl: seq<nat>, bl: seq<nat>)
    requires StateOk(env, s) && s.mode.CodeLengths? && s.mode.bl == bl && s.mode.index == 0
    requires LengthCodes(s.mode.table) == |ll| && DistCodes(s.mode.table) == |dl| && Lengths(ll) && Lengths(dl)
    requires AllSendable(bl, Items(ll)) && AllSendable(bl, Items(dl)) && Full(ll) && Full(dl)
    requires BitsAt(env.bits, s.pos, ItemsBits(bl, Items(ll)) + ItemsBits(bl, Items(dl)))
    ensures var t := s.(mode := InBlock(ll, dl, Symbol),
            pos := s.pos + |ItemsBits(bl, Items(ll)) + ItemsBits(bl, Items(dl))|);
            StateOk(env, t) && Reaches(env, s, t)
  {
    hide Items, ItemsBits, Reaches, AllSendable, UnrollAll, Grounded, Kraft, Pow2, Accepted, Usable, SomeCode;
    var a, b := ItemsBits(bl, Items(ll)), ItemsBits(bl, Items(dl));
    BitsAtSplit(env.bits, s.pos, a, b);
    assert s.mode.blens[..0] == [] && [] + ll == ll;
    ItemsUnroll([], ll); ItemsUnroll(ll, dl);
    var t := RunItems(env, s, bl, Items(ll));
    var u := RunItems(env, t, bl, Items(dl));
    ReachTrans(env, s, t, u);
    assert u.mode.blens[..u.mode.index] == ll + dl;
    assert u.mode.blens == ll + dl;
    BothAccepted(ll, dl);
    assert (ll + dl)[..|ll|] == ll && (ll + dl)[|ll|..] == dl;
    ReachStep(env, u);
    ReachTrans(env, s, u, Step(env, u));
  }

  /** The round trip of a header: whatever send_all_trees writes, the decoder rebuilds exactly
      these lengths and goes on with them. */
  lemma RunHeader(env: Env, s: State, ll: seq<nat>, dl: seq<nat>, bl: seq<nat>, blcodes: nat)
    requires StateOk(env, s) && s.mode.TreeCounts? && Header(ll, dl, bl, blcodes)
    requires BitsAt(env.bits, s.pos, HeaderBits(ll, dl, bl, blcodes))
    ensures var t := s.(mode := InBlock(ll, dl, Symbol), pos := s.pos + |HeaderBits(ll, dl, bl, blcodes)|);
            StateOk(env, t) && Reaches(env, s, t)
  {
    hide Items, ItemsBits, Reaches, AllSendable, StateOk, OrderBits, CountBits, Kraft, Pow2, Step, LengthCodes,
         DistCodes, BitCodes, bl_order;
    var counts, order := CountBits(|ll|, |dl|, blcodes), OrderBits(bl, blcodes);
    var items := ItemsBits(bl, Items(ll)) + ItemsBits(bl, Items(dl));
    BitsAtSplit(env.bits, s.pos, counts, order + items);
    BitsAtSplit(env.bits, s.pos + 14, order, items);
    RunCounts(env, s, |ll|, |dl|, blcodes);
    ReachStep(env, s);
    var t := Step(env, s);
    var blens := RunBitLengths(env, t, bl, 0);
    var u := t.(mode := CodeLengths(t.mode.table, 0, blens, bl), pos := t.pos + 3 * blcodes);
    ReachTrans(env, s, t, u);
    RunCodeLengths(env, u, ll, dl, bl);
    ReachTrans(env, s, u, u.(mode := InBlock(ll, dl, Symbol), pos := u.pos + |items|));
  }
}
