/** Looking up codes in the tables of huft_build, as inflate does: which operations an entry
    may have, and tables that are safe to follow. */
module Lookups {
  import opened Arith
  import opened Huft

  /** The tables of one block: where they start and how many bits index them. */
  datatype Codes = Codes(hp: seq<Entry>, lbits: nat, dbits: nat, ltree: nat, dtree: nat)

  /** The tables for the code length codes. */
  datatype BitsTree = BitsTree(hp: seq<Entry>, bb: nat, tb: nat)

  /** What a table is for: literals, with lengths if there are distances, or distances. */
  datatype Kind = Literals(lens: bool) | Distances

  /** `(e & (1 << i)) != 0`. */
  predicate HasBit(e: nat, i: nat) { Shr(e, i) % 2 == 1 }

  /** The entry leads to another table. */
  predicate Leads(kind: Kind, e: Entry) {
    (kind.Literals? ==> e.exop != 0) && !HasBit(e.exop, 4) && !HasBit(e.exop, 6)
  }

  /** A length is one that deflate knows, a distance is at least 1, and only links lead on. */
  ghost predicate EntryFits(kind: Kind, e: Entry) {
    && (Leads(kind, e) <==> e.IsLink())
    && (HasBit(e.exop, 4) ==>
          match kind
          case Literals(lens) => lens && e.exop != 0 && e.exop % 16 <= 5 && 3 <= e.base &&
            e.base + Pow2(e.exop % 16) <= 259
          case Distances => e.base >= 1)
  }

  /** No table is indexed by more bits, so that inflate never takes a whole byte too many. */
  const LOOKAHEAD := 9

  /** Whatever the bits are, looking them up in a table stays in the table space and takes at
      most room bits. */
  ghost predicate TableFits(kind: Kind, hp: seq<Entry>, tree: nat, need: nat, room: nat)
    decreases room
  {
    && need <= room && need <= LOOKAHEAD && tree + Pow2(need) <= |hp|
    && forall i {:trigger hp[i]} :: tree <= i < tree + Pow2(need) ==>
         && 1 <= hp[i].bits <= need && EntryFits(kind, hp[i])
         && (Leads(kind, hp[i]) ==> TableFits(kind, hp, i + hp[i].base, hp[i].exop, room - hp[i].bits))
  }

  /** The table for the code length codes fits: one level of at most 7 bits. */
  ghost predicate BitsFit(t: BitsTree) {
    && t.bb <= 7 && t.tb + Pow2(t.bb) <= |t.hp|
    && forall i {:trigger t.hp[i]} :: t.tb <= i < t.tb + Pow2(t.bb) ==>
         1 <= t.hp[i].bits <= t.bb && t.hp[i].base <= 18 && !t.hp[i].IsLink()
  }

  ghost predicate CodesFit(c: Codes) {
    && TableFits(Literals(c.dbits > 0), c.hp, c.ltree, c.lbits, 15)
    && (c.dbits > 0 ==> TableFits(Distances, c.hp, c.dtree, c.dbits, 15))
  }

  lemma {:induction false} FitsMore(kind: Kind, hp: seq<Entry>, tree: nat, need: nat, room: nat, more: nat)
    requires TableFits(kind, hp, tree, need, room) && room <= more
    ensures TableFits(kind, hp, tree, need, more)
    decreases room
  {
    hide Pow2, EntryFits, HasBit;
    forall i {:trigger hp[i]} | tree <= i < tree + Pow2(need) && Leads(kind, hp[i])
      ensures TableFits(kind, hp, i + hp[i].base, hp[i].exop, more - hp[i].bits)
    {
      FitsMore(kind, hp, i + hp[i].base, hp[i].exop, room - hp[i].bits, more - hp[i].bits);
    }
  }

  /** A lookup in a table that fits finds an entry that fits. */
  lemma LookupFits(kind: Kind, hp: seq<Entry>, tree: nat, need: nat, room: nat, x: nat)
    requires TableFits(kind, hp, tree, need, room) && x < Pow2(need)
    ensures tree + x < |hp|
    ensures var e := hp[tree + x];
            && 1 <= e.bits <= need <= room && EntryFits(kind, e)
            && (Leads(kind, e) ==> TableFits(kind, hp, tree + x + e.base, e.exop, room - e.bits))
  {
    hide Pow2, EntryFits, HasBit;
    assert hp[tree + x] == hp[tree + x];
  }
}
