/** The symbols of a block: compress_block in zlib/trees.c writes what the decoder reads. */
module BlockBody {
  import opened Arith
  import opened BitStrings
  import opened BitStream
  import opened BitOutput
  import opened StringHash
  import opened Tokens
  import opened Canonical
  import opened SymbolCodes
  import opened Options
  import opened CodeReading
  import opened CopyCodes
  import opened BlockFields
  import opened TreeCodes
  import opened Alphabet
  import opened Decoder
  import opened RunsTo

  const END_BLOCK := 256

  /** The bits of a symbol's code, as they go out. */
  ghost function CodeBits(b: seq<nat>, sym: nat): (s: Bits)
    requires sym < |b| && b[sym] <= MAX_BITS
    ensures |s| == b[sym]
  {
    BitsOf(Rev(CodeOf(b, sym), b[sym]), b[sym])
  }

  /** A code for every symbol that the token needs. */
  ghost predicate Encodable(tab: CodeTables, lb: seq<nat>, db: seq<nat>, t: Token) {
    && tab.Ok() && Lengths(lb) && Lengths(db) && t.dist <= 0x8000
    && if t.dist == 0 then t.lc < |lb| && lb[t.lc] > 0
       else
         && 257 + tab.lengthCode[t.lc] < |lb| && lb[257 + tab.lengthCode[t.lc]] > 0
         && tab.DCode(t.dist - 1) < |db| && db[tab.DCode(t.dist - 1)] > 0
  }

  /** What is left of a length for the extra bits. */
  function LengthRest(tab: CodeTables, lc: Byte): (r: int)
    requires |tab.lengthCode| == 256 && |tab.baseLength| == LENGTH_CODES && tab.lengthCode[lc] < LENGTH_CODES
  {
    if extra_lbits[tab.lengthCode[lc]] == 0 then 0 else lc - tab.baseLength[tab.lengthCode[lc]]
  }

  lemma LengthIs(tab: CodeTables, lc: Byte)
    requires tab.Ok()
    ensures var c := tab.lengthCode[lc];
            && c < LENGTH_CODES && extra_lbits[c] == cplext[c] <= 5
            && 0 <= LengthRest(tab, lc) < Pow2(extra_lbits[c]) && cplens[c] + LengthRest(tab, lc) == lc + 3
  {
    hide Pow2, cplens, extra_lbits;
    FirstBases();
    assert tab.LengthOk(lc);
    var c := tab.lengthCode[lc];
    SameExtra(c);
    Powers();
    LastLength();
  }

  lemma LastLength()
    ensures cplens[28] == 258 && extra_lbits[28] == 0
  {
  }

  lemma DistanceIs(tab: CodeTables, d: nat)
    requires tab.Ok() && d < 0x8000
    ensures var c := tab.DCode(d);
            && c < D_CODES && extra_dbits[c] == cpdext[c] <= 13
            && 0 <= d - tab.baseDist[c] < Pow2(extra_dbits[c]) && cpdist[c] + (d - tab.baseDist[c]) == d + 1
  {
    hide Pow2, cpdist, extra_dbits;
    FirstBases();
    assert tab.DistOk(d);
    SameExtra(tab.DCode(d));
  }

  /** The bits of a token. */
  ghost function TokenBits(tab: CodeTables, lb: seq<nat>, db: seq<nat>, t: Token): Bits
    requires Encodable(tab, lb, db, t)
  {
    if t.dist == 0 then CodeBits(lb, t.lc)
    else
      LengthIs(tab, t.lc); DistanceIs(tab, t.dist - 1);
      var c, d := tab.lengthCode[t.lc], tab.DCode(t.dist - 1);
      CodeBits(lb, 257 + c) + BitsOf(LengthRest(tab, t.lc), extra_lbits[c]) +
      (CodeBits(db, d) + BitsOf(t.dist - 1 - tab.baseDist[d], extra_dbits[d]))
  }

  ghost predicate AllEncodable(tab: CodeTables, lb: seq<nat>, db: seq<nat>, ts: seq<Token>) {
    forall i :: 0 <= i < |ts| ==> Encodable(tab, lb, db, ts[i])
  }

  /** The bits of a list of tokens. */
  ghost function TokensBits(tab: CodeTables, lb: seq<nat>, db: seq<nat>, ts: seq<Token>): Bits
    requires AllEncodable(tab, lb, db, ts)
  {
    if ts == [] then [] else TokensBits(tab, lb, db, ts[..|ts| - 1]) + TokenBits(tab, lb, db, ts[|ts| - 1])
  }

  /** The Len and Code fields for the symbols of b. */
  ghost predicate TreeFor(tree: seq<Node>, b: seq<nat>) {
    Lengths(b) && Coded(tree, b) && forall n :: 0 <= n < |b| ==> tree[n].dl == b[n]
  }

  /** send_code. */
  method SendCode(w: BitWriter, tree: seq<Node>, n: nat, ghost b: seq<nat>)
    requires w.Valid() && TreeFor(tree, b) && n < |b| && b[n] > 0
    modifies w`pendingBuf, w`biBuf, w`biValid
    ensures w.Valid() && w.Sent() == old(w.Sent()) + CodeBits(b, n)
  {
    w.SendBits(tree[n].fc, tree[n].dl);
  }

  /** One round of compress_block. */
  method SendToken(w: BitWriter, t: Token, ltree: seq<Node>, dtree: seq<Node>, tab: CodeTables, ghost lb: seq<nat>,
                   ghost db: seq<nat>)
    requires w.Valid() && TreeFor(ltree, lb) && TreeFor(dtree, db) && Encodable(tab, lb, db, t)
    modifies w`pendingBuf, w`biBuf, w`biValid
    ensures w.Valid() && w.Sent() == old(w.Sent()) + TokenBits(tab, lb, db, t)
  {
    hide CodeBits, BitsOf, BitWriter.Sent, Pow2, Coded, cplens, cplext, cpdist, cpdext, extra_lbits, extra_dbits,
         CodeTables.Ok;
    if t.dist == 0 {
      SendCode(w, ltree, t.lc, lb);
    } else {
      TabSizes(tab);
      LengthIs(tab, t.lc); DistanceIs(tab, t.dist - 1);
      ghost var sent := w.Sent();
      var code := tab.lengthCode[t.lc];
      SendWithRest(w, ltree, code + 257, lb, LengthRest(tab, t.lc), extra_lbits[code]);
      ghost var first := CodeBits(lb, 257 + code) + BitsOf(LengthRest(tab, t.lc), extra_lbits[code]);
      assert w.Sent() == sent + first;
      var dist := t.dist - 1;
      code := tab.DCode(dist);
      SendWithRest(w, dtree, code, db, dist - tab.baseDist[code], extra_dbits[code]);
      assert w.Sent() == sent + first + (CodeBits(db, code) + BitsOf(dist - tab.baseDist[code], extra_dbits[code]));
    }
  }

  /** A code, and its extra bits if there are any. */
  method SendWithRest(w: BitWriter, tree: seq<Node>, sym: nat, ghost b: seq<nat>, rest: nat, extra: nat)
    requires w.Valid() && TreeFor(tree, b) && sym < |b| && b[sym] > 0 && extra <= 16 && rest < Pow2(extra)
    modifies w`pendingBuf, w`biBuf, w`biValid
    ensures w.Valid() && w.Sent() == old(w.Sent()) + (CodeBits(b, sym) + BitsOf(rest, extra))
  {
    hide CodeBits, BitsOf, BitWriter.Sent, Pow2, Coded;
    ghost var sent := w.Sent();
    SendCode(w, tree, sym, b);
    if extra != 0 {
      w.SendBits(rest, extra);
    }
    NoBits(rest);
    assert w.Sent() == sent + (CodeBits(b, sym) + BitsOf(rest, extra));
  }

  lemma TabSizes(tab: CodeTables)
    requires tab.Ok()
    ensures |tab.lengthCode| == 256 && |tab.baseLength| == LENGTH_CODES && |tab.distCode| == 512 &&
            |tab.baseDist| == D_CODES
    ensures |extra_lbits| == LENGTH_CODES && |extra_dbits| == D_CODES
  {
  }

  /** compress_block: all tokens, then the end of the block. */
  method CompressBlock(w: BitWriter, tokens: seq<Token>, ltree: seq<Node>, dtree: seq<Node>, tab: CodeTables,
                       ghost lb: seq<nat>, ghost db: seq<nat>)
    requires w.Valid() && TreeFor(ltree, lb) && TreeFor(dtree, db) && AllEncodable(tab, lb, db, tokens)
    requires |lb| > END_BLOCK && lb[END_BLOCK] > 0
    modifies w`pendingBuf, w`biBuf, w`biValid
    ensures w.Valid() && w.Sent() == old(w.Sent()) + (TokensBits(tab, lb, db, tokens) + CodeBits(lb, END_BLOCK))
  {
    hide CodeBits, TokenBits, Encodable, BitWriter.Sent, BitWriter.Valid, Coded;
    ghost var sent := w.Sent();
    var lx := 0;
    while lx < |tokens|
      invariant 0 <= lx <= |tokens| && w.Valid() && w.Sent() == sent + TokensBits(tab, lb, db, tokens[..lx])
    {
      SendToken(w, tokens[lx], ltree, dtree, tab, lb, db);
      assert tokens[..lx + 1][..lx] == tokens[..lx];
      Assoc(sent, TokensBits(tab, lb, db, tokens[..lx]), TokenBits(tab, lb, db, tokens[lx]));
      lx := lx + 1;
    }
    assert tokens[..|tokens|] == tokens;
    Assoc(sent, TokensBits(tab, lb, db, tokens), CodeBits(lb, END_BLOCK));
    SendCode(w, ltree, END_BLOCK, lb);
  }

  /** These bits are in the stream at pos. */
  ghost predicate BitsAt(bits: Bits, pos: nat, s: Bits) {
    pos + |s| <= |bits| && bits[pos..pos + |s|] == s
  }

  lemma BitsAtSplit(bits: Bits, pos: nat, a: Bits, b: Bits)
    requires BitsAt(bits, pos, a + b)
    ensures BitsAt(bits, pos, a) && BitsAt(bits, pos + |a|, b)
  {
    assert bits[pos..pos + |a|] == (a + b)[..|a|] == a;
    assert bits[pos + |a|..pos + |a| + |b|] == (a + b)[|a|..] == b;
  }

  /** A number in the stream. */
  lemma NumberAt(bits: Bits, pos: nat, v: nat, n: nat)
    requires BitsAt(bits, pos, BitsOf(v, n)) && v < Pow2(n)
    ensures Peek(bits, pos, n) == v
  {
    hide BitsOf, Peek, Low;
    PeekAt(bits, pos, n, BitsOf(v, n));
    LeOfBits(v, n);
    LowBelow(v, n);
  }

  lemma CodeFits(b: seq<nat>, sym: nat)
    requires Lengths(b) && Kraft(b) <= Pow2(MAX_BITS) && sym < |b| && b[sym] > 0
    ensures CodeOf(b, sym) < Pow2(b[sym])
  {
    hide First, Pow2, CountOf;
    RankBelowCount(b, sym);
    KraftSays(CountsOf(b), MAX_BITS);
    assert End(CountsOf(b), b[sym]) <= Pow2(b[sym]);
  }

  /** A code at the front is read as that code. */
  lemma CodeAtFront(b: seq<nat>, sym: nat, s: Bits)
    requires Lengths(b) && Kraft(b) <= Pow2(MAX_BITS) && sym < |b| && b[sym] > 0 && BitsAt(s, 0, CodeBits(b, sym))
    ensures Front(b, sym, s)
  {
    hide CodeOf, Rev, BitsOf, Be, Le, Low, Kraft, Pow2;
    CodeFits(b, sym);
    var front, n, k := CodeBits(b, sym), CodeOf(b, sym), b[sym];
    assert s[..k] == front;
    LeOfBits(Rev(n, k), k);
    LowBelow(Rev(n, k), k);
    LeIsRevBe(front);
    RevInjective(Be(front), n, k);
  }

  /** A symbol's code in the stream is read as that symbol. */
  lemma SymbolRead(b: seq<nat>, sym: nat, bits: Bits, pos: nat)
    requires Lengths(b) && Kraft(b) <= Pow2(MAX_BITS) && sym < |b| && b[sym] > 0 && BitsAt(bits, pos, CodeBits(b, sym))
    ensures SymbolAt(b, bits, pos) == Some(sym)
  {
    hide CodeBits, Front, Kraft, Pow2;
    var s := Ahead(bits, pos);
    assert s[0..b[sym]] == bits[pos..pos + b[sym]];
    CodeAtFront(b, sym, s);
    FrontIsUnique(b, sym, SymbolAt(b, bits, pos).value, s);
  }

  /** Lengths whose codes fit. */
  ghost predicate Readable(lb: seq<nat>, db: seq<nat>) {
    Lengths(lb) && Lengths(db) && Kraft(lb) <= Pow2(MAX_BITS) && Kraft(db) <= Pow2(MAX_BITS)
  }

  /** A literal or length symbol. */
  lemma RunSymbol(env: Env, s: State, lb: seq<nat>, db: seq<nat>, sym: nat)
    requires StateOk(env, s) && s.mode == InBlock(lb, db, Symbol) && Readable(lb, db) && sym < |lb| && lb[sym] > 0
    requires BitsAt(env.bits, s.pos, CodeBits(lb, sym)) && sym < MAX_LITERAL_CODES && AfterSymbol(sym).Some?
    ensures var t := s.(mode := InBlock(lb, db, AfterSymbol(sym).value), pos := s.pos + lb[sym]);
            StateOk(env, t) && Reaches(env, s, t)
  {
    hide Run, CodeBits, Reaches, Kraft, Pow2, SymbolAt, AfterSymbol;
    SymbolRead(lb, sym, env.bits, s.pos);
    ReachStep(env, s);
  }

  /** A literal is read as itself. */
  lemma RunLiteral(env: Env, s: State, lb: seq<nat>, db: seq<nat>, x: Byte)
    requires StateOk(env, s) && s.mode == InBlock(lb, db, Symbol) && Readable(lb, db) && x < |lb| && lb[x] > 0
    requires BitsAt(env.bits, s.pos, CodeBits(lb, x))
    ensures var t := s.(pos := s.pos + lb[x], text := s.text + [x]); StateOk(env, t) && Reaches(env, s, t)
  {
    hide Run, CodeBits, Reaches, Readable, SymbolAt, Peek;
    RunSymbol(env, s, lb, db, x);
    var t := s.(mode := InBlock(lb, db, Literal(x)), pos := s.pos + lb[x]);
    ReachStep(env, t);
    assert Step(env, t) == s.(pos := s.pos + lb[x], text := s.text + [x]);
    ReachTrans(env, s, t, Step(env, t));
  }

  /** The end of the block. */
  lemma RunEnd(env: Env, s: State, lb: seq<nat>, db: seq<nat>)
    requires StateOk(env, s) && s.mode == InBlock(lb, db, Symbol) && Readable(lb, db) && END_BLOCK < |lb| &&
             lb[END_BLOCK] > 0
    requires BitsAt(env.bits, s.pos, CodeBits(lb, END_BLOCK))
    ensures var t := s.(mode := NextBlock(s.last), pos := s.pos + lb[END_BLOCK]); StateOk(env, t) && Reaches(env, s, t)
  {
    hide Run, CodeBits, Reaches, Readable, SymbolAt, Peek;
    RunSymbol(env, s, lb, db, END_BLOCK);
    var t := s.(mode := InBlock(lb, db, BlockEnd), pos := s.pos + lb[END_BLOCK]);
    ReachStep(env, t);
    ReachTrans(env, s, t, Step(env, t));
  }

  lemma LengthSymbol(k: nat)
    requires k < LENGTH_CODES && cplext[k] <= 5
    ensures AfterSymbol(257 + k) == Some(LengthBits(cplext[k], cplens[k]))
  {
  }

  /** The first half of a match: the length. */
  lemma RunLength(env: Env, s: State, lb: seq<nat>, db: seq<nat>, k: nat, x: nat)
    requires StateOk(env, s) && s.mode == InBlock(lb, db, Symbol) && Readable(lb, db) && 257 + k < |lb| &&
             lb[257 + k] > 0
    requires k < LENGTH_CODES && x < Pow2(cplext[k]) &&
             BitsAt(env.bits, s.pos, CodeBits(lb, 257 + k) + BitsOf(x, cplext[k]))
    ensures var t := s.(mode := InBlock(lb, db, Distance(cplens[k] + x)), pos := s.pos + lb[257 + k] + cplext[k]);
            StateOk(env, t) && Reaches(env, s, t)
  {
    hide Run, CodeBits, Reaches, Kraft, cplens, cplext, BitsOf, Pow2, Peek, StateOk, Step, AfterSymbol;
    SameExtra(k);
    FirstBases();
    LengthSymbol(k);
    BitsAtSplit(env.bits, s.pos, CodeBits(lb, 257 + k), BitsOf(x, cplext[k]));
    RunSymbol(env, s, lb, db, 257 + k);
    var t := s.(mode := InBlock(lb, db, LengthBits(cplext[k], cplens[k])), pos := s.pos + lb[257 + k]);
    Present(env, t);
    NumberAt(env.bits, t.pos, x, cplext[k]);
    ExtraStep(env, t, lb, db, t.mode.m, Distance(cplens[k] + x), x);
    ReachTrans(env, s, t, t.(mode := InBlock(lb, db, Distance(cplens[k] + x)), pos := t.pos + cplext[k]));
  }

  lemma Present(env: Env, s: State)
    requires StateOk(env, s)
    ensures 0 < env.w <= |s.text| && s.pos <= |env.bits|
  {
  }

  /** A distance symbol. */
  lemma RunDistanceSymbol(env: Env, s: State, lb: seq<nat>, db: seq<nat>, len: nat, k: nat)
    requires StateOk(env, s) && s.mode == InBlock(lb, db, Distance(len)) && Readable(lb, db) && k < |db| && db[k] > 0
    requires BitsAt(env.bits, s.pos, CodeBits(db, k)) && k < D_CODES
    ensures var t := s.(mode := InBlock(lb, db, DistanceBits(len, cpdext[k], cpdist[k])), pos := s.pos + db[k]);
            StateOk(env, t) && Reaches(env, s, t)
  {
    hide Run, CodeBits, Reaches, Kraft, Pow2, SymbolAt, cpdist, cpdext;
    SymbolRead(db, k, env.bits, s.pos);
    ReachStep(env, s);
  }

  /** The second half of a match: the distance and the copy. */
  lemma RunDistance(env: Env, s: State, lb: seq<nat>, db: seq<nat>, len: nat, k: nat, x: nat)
    requires StateOk(env, s) && s.mode == InBlock(lb, db, Distance(len)) && Readable(lb, db) && k < |db| && db[k] > 0
    requires k < D_CODES && x < Pow2(cpdext[k]) && cpdist[k] + x <= env.w
    requires BitsAt(env.bits, s.pos, CodeBits(db, k) + BitsOf(x, cpdext[k]))
    ensures var t := s.(mode := InBlock(lb, db, Symbol), pos := s.pos + db[k] + cpdext[k],
            text := Copy(s.text, cpdist[k] + x, len));
            StateOk(env, t) && Reaches(env, s, t)
  {
    hide Run, CodeBits, Reaches, Kraft, cpdist, cpdext, BitsOf, Pow2, Peek, StateOk, Step, Copy;
    NextDistance(k);
    FirstBases();
    BitsAtSplit(env.bits, s.pos, CodeBits(db, k), BitsOf(x, cpdext[k]));
    RunDistanceSymbol(env, s, lb, db, len, k);
    var t := s.(mode := InBlock(lb, db, DistanceBits(len, cpdext[k], cpdist[k])), pos := s.pos + db[k]);
    Present(env, t);
    NumberAt(env.bits, t.pos, x, cpdext[k]);
    var u := t.(mode := InBlock(lb, db, Copying(len, cpdist[k] + x)), pos := t.pos + cpdext[k]);
    ExtraStep(env, t, lb, db, t.mode.m, u.mode.m, x);
    ReachTrans(env, s, t, u);
    RunCopy(env, u, lb, db, len, cpdist[k] + x);
    ReachTrans(env, s, u, u.(mode := InBlock(lb, db, Symbol), text := Copy(u.text, cpdist[k] + x, len)));
  }

  /** A token is read as what it means. */
  lemma RunToken(env: Env, s: State, tab: CodeTables, lb: seq<nat>, db: seq<nat>, t: Token)
    requires StateOk(env, s) && s.mode == InBlock(lb, db, Symbol) && Readable(lb, db) && Encodable(tab, lb, db, t) &&
             t.dist <= env.w
    requires BitsAt(env.bits, s.pos, TokenBits(tab, lb, db, t))
    ensures var u := s.(pos := s.pos + |TokenBits(tab, lb, db, t)|, text := Apply(s.text, t));
            StateOk(env, u) && Reaches(env, s, u)
  {
    hide Readable, CodeBits, StateOk, Reaches, Encodable, CodeTables.Ok;
    if t.dist == 0 {
      LiteralCode(tab, lb, db, t);
      RunLiteral(env, s, lb, db, t.lc);
    } else {
      RunMatch(env, s, tab, lb, db, t);
    }
  }

  /** A match is read as a copy. */
  lemma RunMatch(env: Env, s: State, tab: CodeTables, lb: seq<nat>, db: seq<nat>, t: Token)
    requires StateOk(env, s) && s.mode == InBlock(lb, db, Symbol) && Readable(lb, db) && Encodable(tab, lb, db, t) &&
             0 < t.dist <= env.w
    requires BitsAt(env.bits, s.pos, TokenBits(tab, lb, db, t))
    ensures var u := s.(pos := s.pos + |TokenBits(tab, lb, db, t)|, text := Copy(s.text, t.dist, t.lc + 3));
            StateOk(env, u) && Reaches(env, s, u)
  {
    hide Kraft, CodeBits, BitsOf, StateOk, Reaches, Pow2, Copy, cplens, cplext, cpdist, cpdext, extra_lbits,
         extra_dbits, CodeTables.Ok, Encodable, LengthRest;
    MatchCodes(tab, lb, db, t);
    FirstBases();
    LengthIs(tab, t.lc); DistanceIs(tab, t.dist - 1);
    var k, x := tab.lengthCode[t.lc], LengthRest(tab, t.lc);
    var d := tab.DCode(t.dist - 1);
    var y := t.dist - 1 - tab.baseDist[d];
    var first, second := CodeBits(lb, 257 + k) + BitsOf(x, cplext[k]), CodeBits(db, d) + BitsOf(y, cpdext[d]);
    BitsAtSplit(env.bits, s.pos, first, second);
    RunLength(env, s, lb, db, k, x);
    var v := s.(mode := InBlock(lb, db, Distance(cplens[k] + x)), pos := s.pos + lb[257 + k] + cplext[k]);
    RunDistance(env, v, lb, db, t.lc + 3, d, y);
    ReachTrans(env, s, v, s.(pos := s.pos + |TokenBits(tab, lb, db, t)|, text := Copy(s.text, t.dist, t.lc + 3)));
  }

  lemma LiteralCode(tab: CodeTables, lb: seq<nat>, db: seq<nat>, t: Token)
    requires Encodable(tab, lb, db, t) && t.dist == 0
    ensures t.lc < |lb| && 0 < lb[t.lc] <= MAX_BITS
  {
  }

  lemma MatchCodes(tab: CodeTables, lb: seq<nat>, db: seq<nat>, t: Token)
    requires Encodable(tab, lb, db, t) && t.dist > 0
    ensures tab.Ok() && |tab.lengthCode| == 256 && |tab.distCode| == 512 && |tab.baseDist| == D_CODES &&
            |tab.baseLength| == LENGTH_CODES
    ensures t.dist <= 0x8000 && 257 + tab.lengthCode[t.lc] < |lb| && 0 < lb[257 + tab.lengthCode[t.lc]] <= MAX_BITS
    ensures tab.DCode(t.dist - 1) < |db| && 0 < db[tab.DCode(t.dist - 1)] <= MAX_BITS
    ensures |extra_lbits| == LENGTH_CODES && |extra_dbits| == D_CODES
  {
  }

  /** A list of tokens is read as what it means. */
  lemma {:induction false} RunTokens(env: Env, s: State, tab: CodeTables, lb: seq<nat>, db: seq<nat>, ts: seq<Token>)
    requires StateOk(env, s) && s.mode == InBlock(lb, db, Symbol) && Readable(lb, db) && AllEncodable(tab, lb, db, ts)
    requires forall i :: 0 <= i < |ts| ==> ts[i].dist <= env.w
    requires BitsAt(env.bits, s.pos, TokensBits(tab, lb, db, ts))
    ensures var u := s.(pos := s.pos + |TokensBits(tab, lb, db, ts)|, text := Expand(s.text, ts));
            StateOk(env, u) && Reaches(env, s, u)
    decreases |ts|
  {
    hide Readable, StateOk, Reaches, Encodable, TokenBits, Apply;
    if ts == [] {
      ReachSelf(env, s);
    } else {
      var n := |ts| - 1;
      var front, last := TokensBits(tab, lb, db, ts[..n]), TokenBits(tab, lb, db, ts[n]);
      BitsAtSplit(env.bits, s.pos, front, last);
      RunTokens(env, s, tab, lb, db, ts[..n]);
      var u := s.(pos := s.pos + |front|, text := Expand(s.text, ts[..n]));
      RunToken(env, u, tab, lb, db, ts[n]);
      ReachTrans(env, s, u, u.(pos := u.pos + |last|, text := Apply(u.text, ts[n])));
    }
  }

  /** The round trip of a block body: whatever compress_block writes, the decoder reads as the
      same literals and copies, and it stops at the end of the block. */
  lemma RunBody(env: Env, s: State, tab: CodeTables, lb: seq<nat>, db: seq<nat>, ts: seq<Token>)
    requires StateOk(env, s) && s.mode == InBlock(lb, db, Symbol) && Readable(lb, db) && AllEncodable(tab, lb, db, ts)
    requires forall i :: 0 <= i < |ts| ==> ts[i].dist <= env.w
    requires Lengths(lb) && |lb| > END_BLOCK && lb[END_BLOCK] > 0
    requires var body := TokensBits(tab, lb, db, ts) + CodeBits(lb, END_BLOCK);
             BitsAt(env.bits, s.pos, body)
    ensures var body := TokensBits(tab, lb, db, ts) + CodeBits(lb, END_BLOCK);
            var u := s.(mode := NextBlock(s.last), pos := s.pos + |body|, text := Expand(s.text, ts));
            StateOk(env, u) && Reaches(env, s, u)
  {
    hide Readable, StateOk, Reaches, TokensBits, CodeBits, Expand, AllEncodable;
    var tokens, end := TokensBits(tab, lb, db, ts), CodeBits(lb, END_BLOCK);
    BitsAtSplit(env.bits, s.pos, tokens, end);
    RunTokens(env, s, tab, lb, db, ts);
    var u := s.(pos := s.pos + |tokens|, text := Expand(s.text, ts));
    RunEnd(env, u, lb, db);
    ReachTrans(env, s, u, u.(mode := NextBlock(u.last), pos := u.pos + lb[END_BLOCK]));
  }
}
