/** The tables of huft_build are safe to follow: whatever the bits are, a lookup stays inside and
    ends within 15 bits. */
module TablesFit {
  import opened Arith
  import opened Canonical
  import opened SymbolCodes
  import opened Huft
  import opened InfTrees
  import opened Lookups

  /** The bases and extra bits are those of lengths or of distances, or marked invalid. */
  ghost predicate ListFits(kind: Kind, n: nat, s: nat, d: seq<nat>, e: seq<nat>) {
    && n <= s + |d| && n <= s + |e| && (kind.Distances? ==> s == 0)
    && forall j :: 0 <= j < n - s ==>
         e[j] == 112 ||
         match kind
         case Literals(lens) => lens && e[j] <= 5 && 3 <= d[j] && d[j] + Pow2(e[j]) <= 259
         case Distances => e[j] <= 15 && d[j] >= 1
  }

  lemma BaseOp(x: nat)
    requires x <= 15
    ensures HasBit(x + 16 + 64, 4) && (x + 16 + 64) % 16 == x
  {
  }

  lemma OtherOps()
    ensures !HasBit(0, 4) && !HasBit(96, 4) && HasBit(96, 6) && !HasBit(192, 4) && HasBit(192, 6)
    ensures HasBit(96, 5) && !HasBit(192, 5)
  {
  }

  lemma LinkOp(x: nat)
    requires 1 <= x <= 15
    ensures !HasBit(x, 4) && !HasBit(x, 6)
  {
  }

  /** The entry of a code fits and leads nowhere. */
  lemma LeafFits(kind: Kind, n: nat, v: seq<nat>, s: nat, d: seq<nat>, e: seq<nat>, pos: nat, k: nat)
    requires ListFits(kind, n, s, d, e) && forall j :: 0 <= j < |v| ==> v[j] < n
    ensures var r := LeafFor(v, s, d, e, pos, k); EntryFits(kind, r) && !Leads(kind, r)
  {
    hide HasBit, Pow2;
    OtherOps();
    if pos < |v| && v[pos] >= s {
      var x := e[v[pos] - s];
      if x != 112 { BaseOp(x); }
    }
  }

  /** A complete set of codes has one at every string. */
  lemma CodeAt(sp: Spec, t: Tab, idx: nat) returns (m: nat, r: nat)
    requires sp.Ok() && t.Len() <= sp.g && idx < Pow2(t.bits) && t.p < Pow2(t.w)
    ensures sp.Done(m, r, sp.g, sp.cnt[sp.g]) && m <= sp.g
    ensures if m <= t.Len() then PrefixOf(sp.Num(m, r), m, t.Cover(idx), t.Len())
            else PrefixOf(t.Cover(idx), t.Len(), sp.Num(m, r), m)
  {
    hide First, End, Shl, Shr, Rev, Pow2, Fits;
    var c, g := t.Cover(idx), sp.g;
    CoverBound(t, idx);
    ShlBound(c, t.Len(), g - t.Len());
    Pow2Positive(g - t.Len());
    m, r := Covered(sp.cnt, Shl(c, g - t.Len()), g);
    ShlPrefixOf(c, t.Len(), g);
    if m <= t.Len() {
      PrefixChain(sp.Num(m, r), m, c, t.Len(), Shl(c, g - t.Len()), g);
    } else {
      PrefixChain(c, t.Len(), sp.Num(m, r), m, Shl(c, g - t.Len()), g);
    }
  }

  lemma ShlPrefixOf(c: nat, k: nat, g: nat)
    requires k <= g
    ensures PrefixOf(c, k, Shl(c, g - k), g)
  {
    hide Shl, Shr;
    Pow2Positive(g - k);
    JoinParts(c, 0, g - k);
  }

  lemma CoverBound(t: Tab, idx: nat)
    requires t.p < Pow2(t.w)
    ensures t.Cover(idx) < Pow2(t.Len())
  {
    hide Shl, Rev, Pow2;
    ShlBound(t.p, t.w, t.bits);
  }

  /** Following any table of a finished layout. */
  lemma {:induction false} TabFits(kind: Kind, sp: Spec, hp: seq<Entry>, tabs: set<Tab>, b: seq<nat>, v: seq<nat>,
                                   s: nat, d: seq<nat>, e: seq<nat>, t: Tab)
    requires Lengths(b) && LaidOut(sp, hp, tabs, b, v, s, d, e) && ListFits(kind, |b|, s, d, e)
    requires t in tabs && t.p < Pow2(t.w) && sp.l <= LOOKAHEAD
    ensures t.Len() <= 15 && TableFits(kind, hp, t.addr, t.bits, 15 - t.w)
    decreases 15 - t.w
  {
    hide First, End, Shl, Shr, Rev, Pow2, EntryFits, HasBit, LeafFor, Offset, CountOf, PlaceOf, ListFits, Tab.Cover,
         PrefixOf, Padded;
    forall i {:trigger hp[i]} | t.addr <= i < t.addr + Pow2(t.bits)
      ensures 1 <= hp[i].bits <= t.bits && EntryFits(kind, hp[i])
      ensures Leads(kind, hp[i]) ==> TableFits(kind, hp, i + hp[i].base, hp[i].exop, 15 - t.w - hp[i].bits)
    {
      var idx := i - t.addr;
      var m, r := CodeAt(sp, t, idx);
      assert EntryOk(sp, hp, tabs, t, idx, m, r);
      if m <= t.Len() {
        LeafFits(kind, |b|, v, s, d, e, Offset(CountsOf(b), m) + r, m);
        LeafBits(kind, sp.leaf(m, r), m - t.w);
      } else {
        LinkOp(hp[i].exop);
        LinkFits(kind, hp[i]);
        CoverBound(t, idx);
        TabFits(kind, sp, hp, tabs, b, v, s, d, e, Tab(i + hp[i].base, t.Cover(idx), t.Len(), hp[i].exop));
      }
    }
  }

  lemma LeafBits(kind: Kind, r: Entry, bits: nat)
    ensures EntryFits(kind, r.(bits := bits)) <==> EntryFits(kind, r)
    ensures Leads(kind, r.(bits := bits)) <==> Leads(kind, r)
  {
  }

  lemma LinkFits(kind: Kind, r: Entry)
    requires !HasBit(r.exop, 4) && !HasBit(r.exop, 6) && r.IsLink()
    ensures EntryFits(kind, r)
  {
  }

  /** A table of one level whose entries are symbols below n. */
  ghost predicate Flat(hp: seq<Entry>, t: nat, m: nat, n: nat) {
    t + Pow2(m) <= |hp| && forall i {:trigger hp[i]} :: t <= i < t + Pow2(m) ==>
      1 <= hp[i].bits <= m && hp[i].base < n && !hp[i].IsLink()
  }

  lemma RootIsFlat(sp: Spec, hp: seq<Entry>, tabs: set<Tab>, b: seq<nat>, v: seq<nat>, s: nat, d: seq<nat>, e: seq<nat>)
    requires Lengths(b) && LaidOut(sp, hp, tabs, b, v, s, d, e) && sp.l == sp.g && 1 <= |b| <= s
    ensures Flat(hp, sp.root, sp.l, |b|)
  {
    hide First, End, Shl, Shr, Rev, Pow2, Offset, CountOf, PlaceOf, Tab.Cover, PrefixOf, Padded;
    var t := Tab(sp.root, 0, 0, sp.l);
    Pow2None();
    forall i {:trigger hp[i]} | t.addr <= i < t.addr + Pow2(t.bits)
      ensures 1 <= hp[i].bits <= t.bits && hp[i].base < |b| && !hp[i].IsLink()
    {
      var m, r := CodeAt(sp, t, i - t.addr);
      assert EntryOk(sp, hp, tabs, t, i - t.addr, m, r);
    }
  }

  lemma {:induction false} FitsExtends(kind: Kind, hp: seq<Entry>, hp': seq<Entry>, t: nat, m: nat, room: nat)
    requires TableFits(kind, hp, t, m, room) && hp <= hp'
    ensures TableFits(kind, hp', t, m, room)
    decreases room
  {
    hide Pow2, EntryFits, HasBit;
    forall i {:trigger hp'[i]} | t <= i < t + Pow2(m)
      ensures hp'[i] == hp[i] &&
              (Leads(kind, hp[i]) ==> TableFits(kind, hp', i + hp[i].base, hp[i].exop, room - hp[i].bits))
    {
      assert hp[i] == hp'[i];
      if Leads(kind, hp[i]) { FitsExtends(kind, hp, hp', i + hp[i].base, hp[i].exop, room - hp[i].bits); }
    }
  }

  lemma FlatExtends(hp: seq<Entry>, hp': seq<Entry>, t: nat, m: nat, n: nat)
    requires Flat(hp, t, m, n) && hp <= hp'
    ensures Flat(hp', t, m, n)
  {
    forall i {:trigger hp'[i]} | t <= i < t + Pow2(m) ensures hp'[i] == hp[i] { assert hp[i] == hp'[i]; }
  }
}
