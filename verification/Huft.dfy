/** The multi-level decoding tables of zlib/inftrees.c. */
module Huft {
  import opened Arith
  import opened BitStrings
  import opened Canonical

  /** inflate_huft: an operation, a number of bits to drop, and a value or an offset. */
  datatype Entry = Entry(exop: nat, bits: nat, base: nat) {
    /** `(e & 64) == 0` on an entry that is neither a literal nor a base: the next table
        has exop bits and lies base entries further on. */
    predicate IsLink() { 1 <= exop <= 15 }
  }

  /** The operation and value found, and the number of bits it took. */
  datatype Lookup = NoEntry | Found(exop: nat, base: nat, used: nat)

  /** Decoding one symbol (the LEN and DIST states of inflate_codes): index the table with
      the next `need` bits, drop the entry's bits, and go on in the next table or stop. */
  function Walk(hp: seq<Entry>, t: nat, need: nat, s: Bits): Lookup
    decreases |s|
  {
    if need > |s| || t + Le(s[..need]) >= |hp| then NoEntry
    else
      var at := t + Le(s[..need]);
      var e := hp[at];
      if !e.IsLink() then Found(e.exop, e.base, e.bits)
      else if e.bits == 0 || e.bits > |s| then NoEntry
      else
        match Walk(hp, at + e.base, e.exop, s[e.bits..])
        case NoEntry => NoEntry
        case Found(exop, base, used) => Found(exop, base, e.bits + used)
  }

  /** A table: its first entry, the w bits that lead to it read as a number p, and the
      number of bits that index it. */
  datatype Tab = Tab(addr: nat, p: nat, w: nat, bits: nat) {

    /** The bits that lead to entry idx, read as a number of Len() bits. */
    function Cover(idx: nat): nat { Shl(p, bits) + Rev(idx, bits) }

    function Len(): nat { w + bits }
  }

  /** What the tables are to say: the counts of a complete set of codes, their greatest
      length, the bits of the first table, and the entry for the r-th code of length k, with
      all k bits to drop. */
  datatype Spec = Spec(cnt: Counts, g: nat, l: nat, root: nat, leaf: (nat, nat) -> Entry) {
    ghost predicate Ok() {
      && Complete(cnt, g) && 1 <= l <= g && cnt[g] > 0
    }

    function Num(k: nat, r: nat): nat
      requires k <= MAX_BITS
    {
      First(cnt, k) + r
    }

    /** The r-th code of length k is one of the codes before the c-th code of length m. */
    ghost predicate Done(k: nat, r: nat, m: nat, c: nat) {
      1 <= k <= m <= MAX_BITS && r < cnt[k] && (k == m ==> r < c)
    }
  }

  /** Entry idx of table t is right for the r-th code of length k: if the code ends in this
      table, the entry is its leaf; if it goes on, the entry leads to a table for the bits
      read so far. */
  ghost predicate EntryOk(sp: Spec, hp: seq<Entry>, tabs: set<Tab>, t: Tab, idx: nat, k: nat, r: nat)
    requires k <= MAX_BITS && t.addr + idx < |hp|
  {
    var n, e := sp.Num(k, r), hp[t.addr + idx];
    && (PrefixOf(n, k, t.Cover(idx), t.Len()) ==> k > t.w && e == sp.leaf(k, r).(bits := k - t.w))
    && (k > t.Len() && PrefixOf(t.Cover(idx), t.Len(), n, k) ==>
          && e.IsLink() && e.bits == t.bits
          && Tab(t.addr + idx + e.base, t.Cover(idx), t.Len(), e.exop) in tabs)
  }

  /** All entries are right for all codes before the c-th of length m. */
  ghost predicate Built(sp: Spec, hp: seq<Entry>, tabs: set<Tab>, m: nat, c: nat) {
    && (forall t :: t in tabs ==> t.addr + Pow2(t.bits) <= |hp|)
    && (forall t: Tab, idx: nat, k: nat, r: nat {:trigger EntryOk(sp, hp, tabs, t, idx, k, r)} ::
          t in tabs && idx < Pow2(t.bits) && sp.Done(k, r, m, c) ==> EntryOk(sp, hp, tabs, t, idx, k, r))
  }

  lemma CoverOfStream(t: Tab, s: Bits)
    requires t.Len() <= |s| && Be(s[..t.w]) == t.p
    ensures var idx := Le(s[t.w..t.Len()]);
            idx < Pow2(t.bits) && t.Cover(idx) == Be(s[..t.Len()])
  {
    var a, b := s[..t.w], s[t.w..t.Len()];
    assert s[..t.Len()] == a + b;
    BeConcat(a, b);
    LeIsRevBe(b);
    RevRev(Be(b), t.bits);
    LowBelow(Be(b), t.bits);
  }

  /** Following the tables from t on a stream that starts with a code finds its leaf. */
  lemma {:induction false} WalkFinds(sp: Spec, hp: seq<Entry>, tabs: set<Tab>, t: Tab, s: Bits, k: nat, r: nat, m: nat,
                                     c: nat)
    requires Built(sp, hp, tabs, m, c) && sp.Done(k, r, m, c)
    requires t in tabs && t.w < k && MAX_BITS <= |s|
    requires forall u :: u in tabs ==> u.Len() <= MAX_BITS && u.bits >= 1
    requires Be(s[..t.w]) == t.p && StartsWith(s, sp.Num(k, r), k)
    requires !sp.leaf(k, r).IsLink()
    ensures Walk(hp, t.addr, t.bits, s[t.w..]) == Found(sp.leaf(k, r).exop, sp.leaf(k, r).base, k - t.w)
    decreases k - t.w
  {
    hide First, End, Le, Be, Rev, Shl, Shr, Low, Pow2;
    var rest, n := s[t.w..], sp.Num(k, r);
    var idx := Le(s[t.w..t.Len()]);
    assert rest[..t.bits] == s[t.w..t.Len()];
    CoverOfStream(t, s);
    assert EntryOk(sp, hp, tabs, t, idx, k, r);
    if k <= t.Len() {
      PrefixOfStream(s, k, t.Len());
    } else {
      PrefixOfStream(s, t.Len(), k);
      var e := hp[t.addr + idx];
      var u := Tab(t.addr + idx + e.base, t.Cover(idx), t.Len(), e.exop);
      WalkFinds(sp, hp, tabs, u, s, k, r, m, c);
      assert rest[e.bits..] == s[u.w..];
    }
  }

  /** All strings below table t precede string n of length k. */
  ghost predicate Passed(t: Tab, n: nat, k: nat) {
    t.w < k && Shl(t.p + 1, k - t.w) <= n
  }

  /** Entry idx of t with the bits of table u in front leads to u. */
  ghost predicate LinkTo(hp: seq<Entry>, t: Tab, u: Tab, idx: nat) {
    && t.addr + idx < |hp| && t.addr + idx < u.addr && 1 <= u.bits <= 15
    && hp[t.addr + idx] == Entry(u.bits, t.bits, u.addr - t.addr - idx)
  }

  ghost predicate Linked(hp: seq<Entry>, t: Tab, u: Tab) {
    forall idx: nat {:trigger t.Cover(idx)} :: idx < Pow2(t.bits) && t.Cover(idx) == u.p ==> LinkTo(hp, t, u, idx)
  }

  /** The open tables, outermost first, each one level of l bits below the one before, all
      on the way to code n of length k. */
  ghost predicate StackOk(sp: Spec, tabs: set<Tab>, stack: seq<Tab>, n: nat, k: nat) {
    && (forall j :: 0 <= j < |stack| ==> stack[j] in tabs && PrefixOf(stack[j].p, stack[j].w, n, k) && stack[j].w < k)
    && (forall j :: 0 <= j < |stack| - 1 ==> stack[j + 1].w == stack[j].w + sp.l)
    && (forall t :: t in tabs ==> t.w < k && (t in stack || Passed(t, n, k)))
  }

  /** Closed-off by full tables: inner open tables have l bits and lead to the next. */
  ghost predicate LinksOk(sp: Spec, hp: seq<Entry>, stack: seq<Tab>) {
    forall j :: 0 <= j < |stack| - 1 ==> stack[j].bits == sp.l && Linked(hp, stack[j], stack[j + 1])
  }

  ghost predicate Disjoint(tabs: set<Tab>) {
    forall t, u :: t in tabs && u in tabs && t != u ==>
      t.addr + Pow2(t.bits) <= u.addr || u.addr + Pow2(u.bits) <= t.addr
  }

  /** The fill loop: entry e at every index of t whose bits start with code n. */
  ghost predicate Filled(hp: seq<Entry>, hp': seq<Entry>, t: Tab, n: nat, k: nat, e: Entry) {
    && |hp'| == |hp| && t.addr + Pow2(t.bits) <= |hp|
    && (forall a :: 0 <= a < |hp| && !(t.addr <= a < t.addr + Pow2(t.bits)) ==> hp'[a] == hp[a])
    && (forall idx: nat {:trigger t.Cover(idx)} :: idx < Pow2(t.bits) ==>
          hp'[t.addr + idx] == if PrefixOf(n, k, t.Cover(idx), t.Len()) then e else hp[t.addr + idx])
  }

  lemma CoverPrefix(t: Tab, idx: nat)
    ensures PrefixOf(t.p, t.w, t.Cover(idx), t.Len())
  {
    JoinParts(t.p, Rev(idx, t.bits), t.bits);
  }

  /** A table that leads to code n, or lies below it, is one of the open ones. */
  lemma OnStack(sp: Spec, tabs: set<Tab>, stack: seq<Tab>, t: Tab, idx: nat, n: nat, k: nat) returns (j: nat)
    requires StackOk(sp, tabs, stack, n, k) && t in tabs
    requires PrefixOf(n, k, t.Cover(idx), t.Len()) || PrefixOf(t.Cover(idx), t.Len(), n, k)
    ensures j < |stack| && stack[j] == t
  {
    CoverPrefix(t, idx);
    if PrefixOf(n, k, t.Cover(idx), t.Len()) {
      PrefixChain(t.p, t.w, n, k, t.Cover(idx), t.Len());
    } else {
      PrefixTrans(t.p, t.w, t.Cover(idx), t.Len(), n, k);
    }
    PrefixRange(t.p, t.w, n, k);
    assert t in stack;
    j :| 0 <= j < |stack| && stack[j] == t;
  }

  /** Codes come in order: an earlier code ends where a later one starts, or before. */
  lemma EarlierCode(sp: Spec, k: nat, r: nat, m: nat, c: nat)
    requires sp.Done(k, r, m, c)
    ensures Shl(sp.Num(k, r) + 1, m - k) <= sp.Num(m, c)
  {
    if k < m {
      FirstBehind(sp.cnt, k, m);
      ShlMono(sp.Num(k, r) + 1, End(sp.cnt, k), m - k);
    }
  }

  /** Filling in a code leaves the entries right for the codes before it. */
  lemma FillKeepsOld(sp: Spec, hp: seq<Entry>, hp': seq<Entry>, tabs: set<Tab>, t: Tab, e: Entry,
                     m: nat, c: nat, u: Tab, idx: nat, k: nat, r: nat)
    requires Built(sp, hp, tabs, m, c) && Disjoint(tabs) && t in tabs && m <= MAX_BITS
    requires Filled(hp, hp', t, sp.Num(m, c), m, e) && m <= t.Len()
    requires u in tabs && idx < Pow2(u.bits) && sp.Done(k, r, m, c)
    ensures EntryOk(sp, hp', tabs, u, idx, k, r)
  {
    hide First, End, Rev, Shl, Shr, Low, Pow2, Tab.Cover;
    assert EntryOk(sp, hp, tabs, u, idx, k, r);
    var n, cover := sp.Num(m, c), t.Cover(idx);
    if u == t && PrefixOf(n, m, cover, t.Len()) {
      if PrefixOf(sp.Num(k, r), k, cover, t.Len()) {
        PrefixChain(sp.Num(k, r), k, n, m, cover, t.Len());
        PrefixFree(sp.cnt, k, r, m, c);
      }
    }
  }

  /** Filling in a code in the innermost open table makes all entries right for it. */
  lemma FillDoesNew(sp: Spec, hp: seq<Entry>, hp': seq<Entry>, tabs: set<Tab>, stack: seq<Tab>,
                    m: nat, c: nat, u: Tab, idx: nat)
    requires Built(sp, hp, tabs, m, c) && Disjoint(tabs) && 1 <= m <= MAX_BITS
    requires StackOk(sp, tabs, stack, sp.Num(m, c), m) && LinksOk(sp, hp, stack) && stack != []
    requires var t := stack[|stack| - 1];
             m <= t.Len() && Filled(hp, hp', t, sp.Num(m, c), m, sp.leaf(m, c).(bits := m - t.w))
    requires u in tabs && idx < Pow2(u.bits)
    ensures EntryOk(sp, hp', tabs, u, idx, m, c)
  {
    hide First, End, Rev, Shl, Shr, Low, Pow2, Tab.Cover;
    var n, last := sp.Num(m, c), |stack| - 1;
    if u != stack[last] {
      if PrefixOf(n, m, u.Cover(idx), u.Len()) || PrefixOf(u.Cover(idx), u.Len(), n, m) {
        var j := OnStack(sp, tabs, stack, u, idx, n, m);
        var v := stack[j + 1];
        assert u.Len() == v.w && PrefixOf(v.p, v.w, n, m);
        assert u.Cover(idx) == v.p;
        assert Linked(hp, u, v) && LinkTo(hp, u, v, idx);
        assert v in tabs;
      }
    }
  }

  lemma FillBuilt(sp: Spec, hp: seq<Entry>, hp': seq<Entry>, tabs: set<Tab>, stack: seq<Tab>, m: nat, c: nat)
    requires Built(sp, hp, tabs, m, c) && Disjoint(tabs) && 1 <= m <= MAX_BITS && sp.l >= 1
    requires StackOk(sp, tabs, stack, sp.Num(m, c), m) && LinksOk(sp, hp, stack) && stack != []
    requires var t := stack[|stack| - 1];
             m <= t.Len() && Filled(hp, hp', t, sp.Num(m, c), m, sp.leaf(m, c).(bits := m - t.w))
    ensures Built(sp, hp', tabs, m, c + 1) && LinksOk(sp, hp', stack)
  {
    hide First, End, Rev, Shl, Shr, Low, Pow2, Tab.Cover, EntryOk;
    var t := stack[|stack| - 1];
    forall u: Tab, idx: nat, k: nat, r: nat {:trigger EntryOk(sp, hp', tabs, u, idx, k, r)}
      | u in tabs && idx < Pow2(u.bits) && sp.Done(k, r, m, c + 1)
      ensures EntryOk(sp, hp', tabs, u, idx, k, r)
    {
      if k == m && r == c {
        FillDoesNew(sp, hp, hp', tabs, stack, m, c, u, idx);
      } else {
        FillKeepsOld(sp, hp, hp', tabs, t, sp.leaf(m, c).(bits := m - t.w), m, c, u, idx, k, r);
      }
    }
    forall j | 0 <= j < |stack| - 1 ensures stack[j].bits == sp.l && Linked(hp', stack[j], stack[j + 1]) {
      assert Linked(hp, stack[j], stack[j + 1]);
      LevelsDiffer(sp, stack, j, |stack| - 1);
    }
  }

  lemma {:induction false} LevelsDiffer(sp: Spec, stack: seq<Tab>, i: nat, j: nat)
    requires i < j < |stack| && sp.l >= 1
    requires forall k :: 0 <= k < |stack| - 1 ==> stack[k + 1].w == stack[k].w + sp.l
    ensures stack[i].w < stack[j].w
    decreases j
  {
    if i < j - 1 { LevelsDiffer(sp, stack, i, j - 1); }
  }

  /** If code c of length m is the first string with its first w bits, no earlier code meets
      the strings with those bits. */
  lemma NothingUnder(sp: Spec, k: nat, r: nat, m: nat, c: nat, p: nat, w: nat, cover: nat, len: nat)
    requires sp.Done(k, r, m, c) && PrefixOf(p, w, sp.Num(m, c), m) && sp.Num(m, c) == Shl(p, m - w)
    requires PrefixOf(p, w, cover, len)
    ensures !PrefixOf(sp.Num(k, r), k, cover, len) && !PrefixOf(cover, len, sp.Num(k, r), k)
  {
    hide First, End, Shl, Shr;
    var n, o := sp.Num(m, c), sp.Num(k, r);
    EarlierCode(sp, k, r, m, c);
    if PrefixOf(o, k, cover, len) && k <= w {
      PrefixChain(o, k, p, w, cover, len);
      PrefixTrans(o, k, p, w, n, m);
      PrefixRange(o, k, n, m);
    } else if PrefixOf(o, k, cover, len) {
      PrefixChain(p, w, o, k, cover, len);
      NotBefore(p, w, o, k, m);
    } else if PrefixOf(cover, len, o, k) {
      PrefixTrans(p, w, cover, len, o, k);
      NotBefore(p, w, o, k, m);
    }
  }

  lemma NotBefore(p: nat, w: nat, o: nat, k: nat, m: nat)
    requires PrefixOf(p, w, o, k) && k <= m
    ensures Shl(o + 1, m - k) > Shl(p, m - w)
  {
    PrefixRange(p, w, o, k);
    ShlShl(p, k - w, m - k);
    ShlMono(Shl(p, k - w), o, m - k);
    ShlAdd(o, 1, m - k);
    ShlOne(m - k);
  }

  /** A new table t for code c of length m, the first one with these bits; the entry that
      leads to it is the only one to change. */
  ghost predicate Pushed(sp: Spec, hp: seq<Entry>, hp': seq<Entry>, tabs: set<Tab>, stack: seq<Tab>, t: Tab, m: nat,
                         c: nat)
    requires m <= MAX_BITS
  {
    && t.w < m && 1 <= t.bits <= 15
    && PrefixOf(t.p, t.w, sp.Num(m, c), m) && sp.Num(m, c) == Shl(t.p, m - t.w)
    && |hp'| == |hp| && t.addr + Pow2(t.bits) <= |hp|
    && (forall u :: u in tabs ==> u.addr + Pow2(u.bits) <= t.addr)
    && if stack == [] then hp' == hp else
         var u := stack[|stack| - 1];
         && t.w == u.w + sp.l && u.bits == sp.l
         && exists idx: nat {:trigger u.Cover(idx)} :: idx < Pow2(u.bits) && u.Cover(idx) == t.p
              && u.addr + idx < |hp| && u.addr + idx < t.addr
              && hp' == hp[u.addr + idx := Entry(t.bits, u.bits, t.addr - u.addr - idx)]
  }

  lemma PushBuilt(sp: Spec, hp: seq<Entry>, hp': seq<Entry>, tabs: set<Tab>, stack: seq<Tab>, t: Tab, m: nat, c: nat)
    requires 1 <= m <= MAX_BITS && Built(sp, hp, tabs, m, c) && Pushed(sp, hp, hp', tabs, stack, t, m, c)
    requires Disjoint(tabs) && (stack != [] ==> stack[|stack| - 1] in tabs)
    ensures Built(sp, hp', tabs + {t}, m, c)
  {
    hide First, End, Rev, Shl, Shr, Low, Pow2, Tab.Cover;
    var tabs' := tabs + {t};
    forall u: Tab, idx: nat, k: nat, r: nat {:trigger EntryOk(sp, hp', tabs', u, idx, k, r)}
      | u in tabs' && idx < Pow2(u.bits) && sp.Done(k, r, m, c)
      ensures EntryOk(sp, hp', tabs', u, idx, k, r)
    {
      if u == t {
        CoverPrefix(t, idx);
        NothingUnder(sp, k, r, m, c, t.p, t.w, t.Cover(idx), t.Len());
      } else {
        assert EntryOk(sp, hp, tabs, u, idx, k, r);
        if stack != [] && u == stack[|stack| - 1] && u.Cover(idx) == t.p {
          SelfPrefix(t.p, t.w);
          NothingUnder(sp, k, r, m, c, t.p, t.w, t.p, t.w);
        }
      }
    }
  }

  lemma SelfPrefix(p: nat, w: nat)
    ensures PrefixOf(p, w, p, w)
  {
  }

  /** A table has as many bits as a level may have, or its codes end within it. */
  ghost predicate Roomy(sp: Spec, t: Tab) {
    || t.bits >= Min(sp.l, sp.g - t.w)
    || (t.Len() <= MAX_BITS && First(sp.cnt, t.Len() + 1) >= Shl(t.p + 1, t.bits + 1))
  }

  /** In a roomy table a code either ends or the table has a full level of bits. */
  lemma RoomyFits(sp: Spec, t: Tab, k: nat, r: nat)
    requires Roomy(sp, t) && t.w < k <= sp.g <= MAX_BITS && PrefixOf(t.p, t.w, sp.Num(k, r), k)
    ensures k <= t.Len() || t.bits >= sp.l
  {
    hide End, Shl, Shr;
    if k > t.Len() && t.bits < sp.l {
      FirstGrows(sp.cnt, t.Len() + 1, k);
      ShlMono(Shl(t.p + 1, t.bits + 1), First(sp.cnt, t.Len() + 1), k - t.Len() - 1);
      ShlShl(t.p + 1, t.bits + 1, k - t.Len() - 1);
      PrefixRange(t.p, t.w, sp.Num(k, r), k);
    }
  }

  /** huft_build: the smallest table, up to l bits, that the next `left` codes of length k and
      the codes behind them use up; code c of length k is the first string with prefix p. */
  method ChooseBits(cnt: Counts, g: nat, l: nat, k: nat, w: nat, left: nat, ghost p: nat) returns (j: nat)
    requires w < k <= g <= MAX_BITS && 1 <= l && left <= cnt[k]
    requires First(cnt, k) + (cnt[k] - left) == Shl(p, k - w)
    ensures k - w <= j <= Max(k - w, Min(l, g - w))
    ensures j >= Min(l, g - w) || First(cnt, w + j + 1) >= Shl(p + 1, j + 1)
    ensures j > k - w ==> First(cnt, w + j) <= Shl(p + 1, j)
  {
    hide First, Shl, Pow2;
    var z := if g - w > l then l else g - w;
    j := k - w;
    var f := Pow2(j);
    ShlAdd(p, 1, j); ShlOne(j);
    NextFirst(cnt, k, p + 1, j);
    if f > left {
      f := f - left;
      while j + 1 < z
        invariant k - w <= j <= Max(k - w, z - 1)
        invariant f > 0 && f == Shl(p + 1, j) - End(cnt, w + j)
        invariant j > k - w ==> First(cnt, w + j) <= Shl(p + 1, j)
      {
        NextFirst(cnt, w + j, p + 1, j);
        j := j + 1;
        f := 2 * f;
        NextFirst(cnt, w + j, p + 1, j);
        if f <= cnt[w + j] { return; }
        f := f - cnt[w + j];
      }
      if j < z {
        NextFirst(cnt, w + j, p + 1, j);
        j := j + 1;
      }
    }
  }

  lemma NextFirst(cnt: Counts, k: nat, x: nat, j: nat)
    requires 1 <= k <= MAX_BITS
    ensures First(cnt, k + 1) == 2 * End(cnt, k) && Shl(x, j + 1) == 2 * Shl(x, j)
  {
  }

  /** The position of a new table's link: the code of length k is p and zeros, and the entry
      of the open table t with p in front has the index that `i >> (w - l)` gives. */
  lemma LinkIndex(t: Tab, p: nat, l: nat, n: nat, k: nat)
    requires t.w + l < k && n == Shl(p, k - t.w - l) && PrefixOf(t.p, t.w, n, k)
    ensures Shr(Rev(n, k), t.w) == Rev(Low(p, l), l)
    ensures Rev(n, k) == Rev(p, t.w + l)
    ensures t.bits == l ==> t.Cover(Rev(Low(p, l), l)) == p
  {
    hide Shl, Shr, Low, Rev, Pow2;
    var d := k - t.w - l;
    RevSplit(n, k, t.w);
    LowShl(p, d, l);
    RevShl(Low(p, l), l, d);
    RevShl(p, t.w + l, d);
    RevRev(Low(p, l), l);
    LowOfLow(p, l, l);
    ShlPrefix(p, d);
    ShrShr(n, d, l);
    SplitAt(p, l);
  }

  lemma ShlPrefix(p: nat, d: nat)
    ensures Shr(Shl(p, d), d) == p
  {
    JoinParts(p, 0, d);
  }

  /** The part of the invariant that does not depend on the entries. */
  ghost predicate Core(sp: Spec, tabs: set<Tab>, stack: seq<Tab>, hn: nat, n: nat, k: nat) {
    && 1 <= k <= sp.g && sp.root <= hn
    && StackOk(sp, tabs, stack, n, k) && Disjoint(tabs)
    && (stack != [] ==> stack[0].w == 0)
    && (forall t :: t in tabs ==>
          sp.root <= t.addr && t.addr + Pow2(t.bits) <= hn && Roomy(sp, t) && t.Len() <= sp.g && 1 <= t.bits)
  }

  lemma PushCore(sp: Spec, tabs: set<Tab>, stack: seq<Tab>, hn: nat, n: nat, k: nat, t: Tab)
    requires Core(sp, tabs, stack, hn, n, k) && t.addr == hn
    requires PrefixOf(t.p, t.w, n, k) && t.w < k && Roomy(sp, t) && t.Len() <= sp.g && 1 <= t.bits
    requires if stack == [] then t.w == 0 else t.w == stack[|stack| - 1].w + sp.l
    ensures Core(sp, tabs + {t}, stack + [t], hn + Pow2(t.bits), n, k)
  {
    hide Roomy, Shl, Shr, Pow2;
    forall u | u in tabs + {t} ensures u in stack + [t] || Passed(u, n, k) {
      if u in stack { assert u in stack + [t]; }
      else if u == t { assert (stack + [t])[|stack|] == t; }
    }
  }

  lemma PushLinks(sp: Spec, hp: seq<Entry>, hp': seq<Entry>, tabs: set<Tab>, stack: seq<Tab>, t: Tab, hn: nat, n: nat,
                  k: nat, idx: nat)
    requires Core(sp, tabs, stack, hn, n, k) && LinksOk(sp, hp, stack) && stack != [] && sp.l >= 1
    requires var u := stack[|stack| - 1];
             && u.bits == sp.l && idx < Pow2(u.bits) && u.Cover(idx) == t.p
             && u.addr + idx < t.addr && u.addr + idx < |hp| && 1 <= t.bits <= 15
             && hp' == hp[u.addr + idx := Entry(t.bits, u.bits, t.addr - u.addr - idx)]
    ensures LinksOk(sp, hp', stack + [t])
  {
    hide Roomy, Shl, Shr, Pow2, Tab.Cover, Rev;
    var last := |stack| - 1;
    var u, s2 := stack[last], stack + [t];
    forall j | 0 <= j < |s2| - 1 ensures s2[j].bits == sp.l && Linked(hp', s2[j], s2[j + 1]) {
      if j < last {
        assert Linked(hp, stack[j], stack[j + 1]);
        LevelsDiffer(sp, stack, j, last);
      } else {
        LastLinked(hp', u, t, idx);
      }
    }
  }

  lemma LastLinked(hp: seq<Entry>, u: Tab, t: Tab, idx: nat)
    requires idx < Pow2(u.bits) && u.Cover(idx) == t.p && LinkTo(hp, u, t, idx)
    ensures Linked(hp, u, t)
  {
    hide Pow2, Tab.Cover;
    forall i: nat {:trigger u.Cover(i)} | i < Pow2(u.bits) && u.Cover(i) == t.p ensures LinkTo(hp, u, t, i) {
      CoverInjective(u, i, idx);
    }
  }

  lemma CoverInjective(t: Tab, i: nat, j: nat)
    requires i < Pow2(t.bits) && j < Pow2(t.bits) && t.Cover(i) == t.Cover(j)
    ensures i == j
  {
    RevInjective(i, j, t.bits);
  }

  /** The next code of the same length leaves the tables it does not share. */
  lemma LeftTable(t: Tab, n: nat, k: nat)
    requires PrefixOf(t.p, t.w, n, k) && t.w < k && !PrefixOf(t.p, t.w, n + 1, k)
    ensures Passed(t, n + 1, k) && n + 1 == Shl(t.p + 1, k - t.w)
  {
    PrefixRange(t.p, t.w, n, k);
    PrefixRange(t.p, t.w, n + 1, k);
  }

  /** One bit more for the same place in the order of codes. */
  lemma LongerCode(sp: Spec, tabs: set<Tab>, stack: seq<Tab>, hn: nat, n: nat, k: nat)
    requires Core(sp, tabs, stack, hn, n, k) && k < sp.g
    ensures Core(sp, tabs, stack, hn, 2 * n, k + 1)
  {
    hide Roomy, Pow2, First, End;
    forall j | 0 <= j < |stack| ensures PrefixOf(stack[j].p, stack[j].w, 2 * n, k + 1) {
      assert Shr(2 * n, k + 1 - stack[j].w) == Shr(n, k - stack[j].w);
    }
    forall t | t in tabs ensures t.w < k + 1 && (t in stack || Passed(t, 2 * n, k + 1)) {
      assert Shl(t.p + 1, k + 1 - t.w) == 2 * Shl(t.p + 1, k - t.w);
    }
  }

  /** The entry that leads from the innermost open table to the next. */
  ghost function LinkAt(stack: seq<Tab>, n: nat, k: nat): nat
    requires stack != []
  {
    stack[|stack| - 1].addr + Shr(Rev(n, k), stack[|stack| - 1].w)
  }

  /** The table for code c of length k one level down, with j bits. */
  ghost predicate NextTable(sp: Spec, stack: seq<Tab>, hn: nat, k: nat, c: nat, t: Tab)
    requires k <= MAX_BITS
  {
    && t.addr == hn && t.w < k && t.w == (if stack == [] then 0 else stack[|stack| - 1].w + sp.l)
    && t.p == Shr(sp.Num(k, c), k - t.w) && sp.Num(k, c) == Shl(t.p, k - t.w)
    && Roomy(sp, t) && t.Len() <= sp.g && 1 <= t.bits
  }

  lemma NextTableFits(sp: Spec, tabs: set<Tab>, stack: seq<Tab>, hn: nat, k: nat, c: nat, t: Tab)
    requires sp.Ok() && k <= sp.g && Core(sp, tabs, stack, hn, sp.Num(k, c), k) && NextTable(sp, stack, hn, k, c, t)
    ensures Core(sp, tabs + {t}, stack + [t], hn + Pow2(t.bits), sp.Num(k, c), k)
    ensures stack != [] ==> sp.root <= LinkAt(stack, sp.Num(k, c), k) < hn && Rev(sp.Num(k, c), k) == Rev(t.p, t.w)
    ensures stack != [] ==> stack[|stack| - 1].bits >= sp.l
  {
    hide First, End, Shl, Shr, Rev, Low, Pow2, Roomy;
    PushCore(sp, tabs, stack, hn, sp.Num(k, c), k, t);
    if stack != [] {
      var v := stack[|stack| - 1];
      RoomyFits(sp, v, k, c);
      LinkIndex(v, t.p, sp.l, sp.Num(k, c), k);
      Pow2Mono(sp.l, v.bits);
    }
  }

  lemma NextTableRight(sp: Spec, hp: seq<Entry>, hp': seq<Entry>, tabs: set<Tab>, stack: seq<Tab>, hn: nat, k: nat,
                       c: nat, t: Tab)
    requires sp.Ok() && k <= sp.g && Core(sp, tabs, stack, hn, sp.Num(k, c), k) && NextTable(sp, stack, hn, k, c, t)
    requires Built(sp, hp, tabs, k, c) && LinksOk(sp, hp, stack) && hn + Pow2(t.bits) <= |hp|
    requires forall u :: u in tabs ==> u.bits <= sp.l
    requires if stack == [] then hp' == hp else
               && LinkAt(stack, sp.Num(k, c), k) < hn
               && hp' == hp[LinkAt(stack, sp.Num(k, c), k) :=
                            Entry(t.bits, sp.l, hn - LinkAt(stack, sp.Num(k, c), k))]
    ensures Built(sp, hp', tabs + {t}, k, c) && LinksOk(sp, hp', stack + [t])
  {
    hide First, End, Shl, Shr, Rev, Low, Pow2, Roomy, Built, Tab.Cover;
    var n := sp.Num(k, c);
    NextTableFits(sp, tabs, stack, hn, k, c, t);
    if stack != [] {
      var v := stack[|stack| - 1];
      var idx := Shr(Rev(n, k), v.w);
      LinkIndex(v, t.p, sp.l, n, k);
      assert v.Cover(idx) == t.p && idx < Pow2(v.bits);
      PushLinks(sp, hp, hp', tabs, stack, t, hn, n, k, idx);
    }
    assert Pushed(sp, hp, hp', tabs, stack, t, k, c);
    PushBuilt(sp, hp, hp', tabs, stack, t, k, c);
  }

  /** The indices that the fill loop visits are those whose bits start with the code. */
  lemma FillMatch(t: Tab, n: nat, k: nat, idx: nat)
    requires PrefixOf(t.p, t.w, n, k) && t.w < k <= t.Len()
    ensures PrefixOf(n, k, t.Cover(idx), t.Len()) <==> Low(idx, k - t.w) == Shr(Rev(n, k), t.w)
  {
    hide Shl, Shr, Low, Rev, Pow2;
    var b, d := t.bits, k - t.w;
    RevSplit(n, k, t.w);
    AddAbove(t.p, b, Rev(idx, b), b - d);
    RevSplit(idx, b, b - d);
    SplitAt(n, d);
    RevRev(Low(idx, d), d); LowOfLow(idx, d, d);
    RevRev(Low(n, d), d); LowOfLow(n, d, d);
  }

  /** A table that is not the first begins behind a multiple of l bits. */
  ghost predicate AtLevel(l: nat, w: nat)
    decreases w
  {
    w == 0 || (1 <= l <= w && AtLevel(l, w - l))
  }

  /** Code c of length k is the first of those that share its first w bits: it opens a table there. */
  ghost predicate StartsTable(sp: Spec, k: nat, c: nat, w: nat) {
    && sp.l <= w < k <= sp.g <= MAX_BITS && AtLevel(sp.l, w) && c < sp.cnt[k]
    && sp.Num(k, c) == Shl(Shr(sp.Num(k, c), k - w), k - w)
  }

  /** No level is skipped: a code that opens a table ends in it, in at most l bits. */
  ghost predicate NoSkip(sp: Spec) {
    forall k: nat, c: nat, w: nat {:trigger StartsTable(sp, k, c, w)} :: StartsTable(sp, k, c, w) ==> k - w <= sp.l
  }

  lemma SameSkips(sp: Spec, sp': Spec)
    requires sp.cnt == sp'.cnt && sp.g == sp'.g && sp.l == sp'.l && NoSkip(sp)
    ensures NoSkip(sp')
  {
    hide First, Shl, Shr;
    forall k: nat, c: nat, w: nat {:trigger StartsTable(sp', k, c, w)} | StartsTable(sp', k, c, w)
      ensures k - w <= sp'.l
    {
      assert StartsTable(sp, k, c, w);
    }
  }

  /** Two table levels reach the longest code, or there are too few codes to fill a table of
      more than l bits. */
  ghost predicate ShortOrFew(sp: Spec) {
    sp.g <= MAX_BITS && (sp.g <= 2 * sp.l || CodesFrom(sp.cnt, 1, sp.g) < Pow2(sp.l + 1))
  }

  /** Then no level is skipped. */
  lemma ShortSkipsNone(sp: Spec)
    requires sp.Ok() && ShortOrFew(sp)
    ensures NoSkip(sp)
  {
    hide Shl, Shr, Pow2, First, End, CodesFrom, StartsTable, Complete;
    forall k: nat, c: nat, w: nat {:trigger StartsTable(sp, k, c, w)} | StartsTable(sp, k, c, w) ensures k - w <= sp.l {
      OpensNear(sp, k, c, w);
    }
  }

  lemma OpensNear(sp: Spec, k: nat, c: nat, w: nat)
    requires sp.Ok() && ShortOrFew(sp) && StartsTable(sp, k, c, w)
    ensures k - w <= sp.l
  {
    hide Shl, Shr, Pow2, First, End, CodesFrom;
    var p := Shr(sp.Num(k, c), k - w);
    assert sp.Num(k, c) < Pow2(k) by { assert End(sp.cnt, k) <= Pow2(k); EndIs(sp.cnt, k); }
    if k - w > sp.l && sp.g > 2 * sp.l {
      StringsLeft(sp.cnt, k, sp.g);
      CodesFromMono(sp.cnt, 1, k, sp.g);
      if p >= Pow2(w) {
        ShlMono(Pow2(w), p, k - w);
        ShlOne(w); ShlShl(1, w, k - w); ShlOne(k);
      }
      ShlBound(p, w, k - w);
      Pow2Mono(sp.l + 1, k - w);
    }
  }

  lemma EndIs(cnt: Counts, k: nat)
    requires 1 <= k <= MAX_BITS
    ensures End(cnt, k) == First(cnt, k) + cnt[k]
  {
    hide First;
  }

  /** The open tables lie at their levels. */
  lemma {:induction false} StackLevel(sp: Spec, tabs: set<Tab>, stack: seq<Tab>, hn: nat, n: nat, k: nat, j: nat)
    requires Core(sp, tabs, stack, hn, n, k) && sp.l >= 1 && j < |stack|
    ensures AtLevel(sp.l, stack[j].w)
  {
    hide Pow2, PrefixOf, Roomy, Disjoint, Passed;
    if j > 0 {
      StackLevel(sp, tabs, stack, hn, n, k, j - 1);
      assert stack[(j - 1) + 1].w == stack[j - 1].w + sp.l;
    }
  }

  /** `(i & mask) == x[h]`: the next code is still below the table. */
  lemma SameFront(t: Tab, n: nat, k: nat)
    requires t.w <= k && n < Pow2(k) && t.p < Pow2(t.w)
    ensures Low(Rev(n, k), t.w) == Rev(t.p, t.w) <==> PrefixOf(t.p, t.w, n, k)
  {
    hide Shr, Low, Rev, Pow2;
    RevSplit(n, k, t.w);
    ShrBound(n, t.w, k - t.w);
    if Rev(Shr(n, k - t.w), t.w) == Rev(t.p, t.w) { RevInjective(Shr(n, k - t.w), t.p, t.w); }
  }

  /** Going on to the next code of the same length, with the tables behind h closed. */
  lemma StepCore(sp: Spec, tabs: set<Tab>, stack: seq<Tab>, hn: nat, n: nat, k: nat, h: nat)
    requires Core(sp, tabs, stack, hn, n, k) && h < |stack| && sp.l >= 1
    requires PrefixOf(stack[h].p, stack[h].w, n + 1, k)
    requires forall j :: h < j < |stack| ==> !PrefixOf(stack[j].p, stack[j].w, n + 1, k)
    ensures Core(sp, tabs, stack[..h + 1], hn, n + 1, k)
  {
    hide Shl, Shr, Pow2, Roomy, PrefixOf;
    var s2 := stack[..h + 1];
    forall j | 0 <= j < |s2| ensures s2[j] in tabs && PrefixOf(s2[j].p, s2[j].w, n + 1, k) && s2[j].w < k {
      if j < h {
        LevelsDiffer(sp, stack, j, h);
        PrefixChain(stack[j].p, stack[j].w, stack[h].p, stack[h].w, n, k);
        PrefixTrans(stack[j].p, stack[j].w, stack[h].p, stack[h].w, n + 1, k);
      }
    }
    forall t | t in tabs ensures t.w < k && (t in s2 || Passed(t, n + 1, k)) {
      if t in stack {
        var j :| 0 <= j < |stack| && stack[j] == t;
        if j <= h { assert s2[j] == t; } else { LeftTable(t, n, k); }
      }
    }
  }
}
