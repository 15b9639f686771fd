/** Tables and canonical codes: a symbol that inflate looks up in tables, bit by bit as they come,
    is the one whose code is next in the stream. */
module TableLookup {
  import opened Arith
  import opened Options
  import opened BitStrings
  import opened Canonical
  import opened SymbolCodes
  import opened CodeReading
  import opened CopyCodes
  import opened BlockFields
  import opened Huft
  import opened Lookups
  import opened InfTrees
  import opened TablesFit
  import opened InflateTrees
  import opened Decoder

  /** A lookup d bits further on. */
  function Behind(d: nat, l: Lookup): Lookup {
    match l
    case NoEntry => NoEntry
    case Found(exop, base, used) => Found(exop, base, d + used)
  }

  /** The lookup that begins at pos with the table of m bits at root has come to the table of
      need bits at tree, having dropped some bits. */
  ghost predicate OnWay(kind: Kind, hp: seq<Entry>, root: nat, m: nat, bits: Bits, pos: nat, tree: nat, need: nat,
                        dropped: nat) {
    && dropped <= MAX_BITS && pos + dropped <= |bits| && TableFits(kind, hp, tree, need, MAX_BITS - dropped)
    && Walk(hp, root, m, Ahead(bits, pos)) == Behind(dropped, Walk(hp, tree, need, Ahead(bits, pos)[dropped..]))
  }

  lemma AtRoot(kind: Kind, hp: seq<Entry>, root: nat, m: nat, bits: Bits, pos: nat)
    requires TableFits(kind, hp, root, m, MAX_BITS) && pos <= |bits|
    ensures OnWay(kind, hp, root, m, bits, pos, root, m, 0)
  {
    hide TableFits, Walk;
    assert Ahead(bits, pos)[0..] == Ahead(bits, pos);
  }

  /** The lookup has at most 15 bits to go. */
  lemma NeedFits(kind: Kind, hp: seq<Entry>, root: nat, m: nat, bits: Bits, pos: nat, tree: nat, need: nat,
                 dropped: nat)
    requires OnWay(kind, hp, root, m, bits, pos, tree, need, dropped)
    ensures dropped + need <= MAX_BITS && need <= LOOKAHEAD
  {
    hide Walk;
  }

  /** The next bits select an entry: it leads on, or the lookup is over. */
  lemma NextEntry(kind: Kind, hp: seq<Entry>, root: nat, m: nat, bits: Bits, pos: nat, tree: nat, need: nat,
                  dropped: nat, x: nat)
    requires OnWay(kind, hp, root, m, bits, pos, tree, need, dropped)
    requires pos + dropped + need <= |bits| && x == Peek(bits, pos + dropped, need)
    ensures tree + x < |hp|
    ensures var e := hp[tree + x];
            && 1 <= e.bits <= need && dropped + e.bits <= MAX_BITS && EntryFits(kind, e)
            && if Leads(kind, e) then OnWay(kind, hp, root, m, bits, pos, tree + x + e.base, e.exop, dropped + e.bits)
               else Walk(hp, root, m, Ahead(bits, pos)) == Found(e.exop, e.base, dropped + e.bits)
  {
    hide Peek, TableFits, HasBit, Pow2, Walk, EntryFits, Leads;
    var ahead := Ahead(bits, pos);
    var rest := ahead[dropped..];
    assert rest[..need] == bits[pos + dropped..pos + dropped + need];
    PeekIsLe(bits, pos + dropped, need);
    LookupFits(kind, hp, tree, need, MAX_BITS - dropped, x);
    var e := hp[tree + x];
    assert rest[e.bits..] == ahead[dropped + e.bits..];
    OneStep(hp, tree, need, rest, x);
    FitsLeads(kind, e);
  }

  lemma FitsLeads(kind: Kind, e: Entry)
    requires EntryFits(kind, e)
    ensures Leads(kind, e) <==> e.IsLink()
  {
    hide HasBit, Pow2, Leads;
  }

  lemma OneStep(hp: seq<Entry>, tree: nat, need: nat, rest: Bits, x: nat)
    requires need <= |rest| && x == Le(rest[..need]) && tree + x < |hp| && 1 <= hp[tree + x].bits <= need
    ensures var e := hp[tree + x];
            Walk(hp, tree, need, rest) ==
            if e.IsLink() then Behind(e.bits, Walk(hp, tree + x + e.base, e.exop, rest[e.bits..]))
              else Found(e.exop, e.base, e.bits)
  {
  }

  /** Where the entry of a literal or length leads. */
  function AfterEntry(e: Entry): Option<SymbolMode> {
    if e.exop == 0 then Some(Literal(e.base))
    else if HasBit(e.exop, 4) then Some(LengthBits(e.exop % 16, e.base))
    else if HasBit(e.exop, 5) then Some(BlockEnd)
    else None
  }

  /** The operation for a symbol leads where the symbol does. */
  lemma OpLeads(sym: nat, bits: nat)
    requires sym < MAX_LITERAL_CODES
    ensures var op := OpOf(sym, LITERALS, cplens, cplext); AfterEntry(Entry(op.0, bits, op.1)) == AfterSymbol(sym)
  {
    hide HasBit, Pow2;
    OtherOps();
    if sym >= 257 {
      LengthEntry(sym - 257);
      if cplext[sym - 257] <= 15 { BaseOp(cplext[sym - 257]); }
    }
  }

  lemma LengthSizes(c: Codes, ll: seq<nat>, dl: seq<nat>)
    requires Matching(c, ll, dl)
    ensures Lengths(ll) && |ll| <= MAX_LITERAL_CODES && (c.dbits > 0 ==> Lengths(dl) && |dl| <= MAX_DISTANCE_CODES)
    ensures |cplens| == |cplext| == 31 && |cpdist| == |cpdext| == 30
    ensures TableFits(Literals(c.dbits > 0), c.hp, c.ltree, c.lbits, MAX_BITS)
    ensures c.dbits > 0 ==> TableFits(Distances, c.hp, c.dtree, c.dbits, MAX_BITS)
  {
    hide Decodes;
  }

  /** What is found for a literal or length is the symbol whose code is next. */
  lemma LengthFound(c: Codes, ll: seq<nat>, dl: seq<nat>, bits: Bits, pos: nat, e: Entry, used: nat)
    requires Matching(c, ll, dl) && Lengths(ll) && pos <= |bits|
    requires Walk(c.hp, c.ltree, c.lbits, Ahead(bits, pos)) == Found(e.exop, e.base, used)
    ensures match SymbolAt(ll, bits, pos)
            case None => AfterEntry(e) == None
            case Some(sym) => sym < |ll| <= MAX_LITERAL_CODES && used == ll[sym] && AfterEntry(e) == AfterSymbol(sym)
  {
    hide Walk, CodeOf, StartsWith, OpOf, NoCode, HasBit, AfterSymbol, CodesFit, cplens, cplext;
    OtherOps();
    LengthSizes(c, ll, dl);
    match SymbolAt(ll, bits, pos)
    case None =>
    case Some(sym) => OpLeads(sym, e.bits);
  }

  /** Where the entry of a distance leads: to its extra bits and base. */
  function AfterDistance(e: Entry): Option<(nat, nat)> {
    if HasBit(e.exop, 4) then Some((e.exop % 16, e.base)) else None
  }

  lemma DistanceLeads(sym: nat, bits: nat)
    requires sym < MAX_DISTANCE_CODES
    ensures var op := OpOf(sym, 0, cpdist, cpdext);
            AfterDistance(Entry(op.0, bits, op.1)) == Some((cpdext[sym], cpdist[sym]))
  {
    hide HasBit, Pow2;
    DistanceEntry(sym);
    BaseOp(cpdext[sym]);
  }

  /** What is found for a distance is the symbol whose code is next. */
  lemma DistanceFound(c: Codes, ll: seq<nat>, dl: seq<nat>, bits: Bits, pos: nat, e: Entry, used: nat)
    requires Matching(c, ll, dl) && c.dbits > 0 && Lengths(dl) && pos <= |bits|
    requires Walk(c.hp, c.dtree, c.dbits, Ahead(bits, pos)) == Found(e.exop, e.base, used)
    ensures match SymbolAt(dl, bits, pos)
            case None => AfterDistance(e) == None
            case Some(sym) =>
              && sym < |dl| <= MAX_DISTANCE_CODES && used == dl[sym]
              && AfterDistance(e) == Some((cpdext[sym], cpdist[sym]))
  {
    hide Walk, CodeOf, StartsWith, OpOf, NoCode, HasBit, CodesFit, cpdist, cpdext;
    OtherOps();
    LengthSizes(c, ll, dl);
    match SymbolAt(dl, bits, pos)
    case None =>
    case Some(sym) => DistanceLeads(sym, e.bits);
  }

  /** The tree decodes the code length codes. */
  ghost predicate BitsMatch(tree: BitsTree, bl: seq<nat>) {
    && |bl| == BITS_LENGTHS && Lengths(bl) && Usable(bl) && SomeCode(bl) && BitsFit(tree)
    && Decodes(tree.hp, tree.tb, tree.bb, bl, BITS_LENGTHS, [], [])
  }

  /** The entry for the next bits is the next code length code. */
  lemma BitsEntry(tree: BitsTree, bl: seq<nat>, bits: Bits, pos: nat, x: nat)
    requires BitsMatch(tree, bl) && pos + tree.bb <= |bits| && x == Peek(bits, pos, tree.bb)
    ensures tree.bb <= 7 && tree.tb + x < |tree.hp|
    ensures var e := tree.hp[tree.tb + x];
            BlCode(bl, bits, pos) == (e.base, e.bits) && 1 <= e.bits <= tree.bb && e.base <= 18
  {
    hide Peek, Pow2, Walk, Usable, SomeCode, CodeOf, StartsWith, NoCode;
    var ahead := Ahead(bits, pos);
    assert ahead[..tree.bb] == bits[pos..pos + tree.bb];
    PeekIsLe(bits, pos, tree.bb);
    var e := tree.hp[tree.tb + x];
    assert e == tree.hp[tree.tb + x];
    OneStep(tree.hp, tree.tb, tree.bb, ahead, x);
    assert Walk(tree.hp, tree.tb, tree.bb, ahead) == Found(e.exop, e.base, e.bits);
  }
}
