/** From blocks to bytes: every block through _tr_flush_block, empty blocks for flushes, header and
    trailer (zlib/trees.c, zlib/deflate.c). */
module BlockWriting {
  import opened Options
  import opened BitStrings
  import opened BitStream
  import opened BitOutput
  import opened StringHash
  import opened Tokens
  import opened BlockOutput
  import opened CopyCodes
  import opened BlockFields
  import opened TreeCodes
  import opened Alphabet
  import opened BlockBody
  import opened BlockForms
  import opened StaticTrees
  import opened FlushBlock

  /** The blocks so far, and how they were written. */
  ghost predicate Written(tab: CodeTables, blocks: seq<Block>, ps: seq<Piece>) {
    && |ps| == |blocks| && Writable(tab, ps)
    && forall i :: 0 <= i < |ps| ==>
         && ps[i].ts == blocks[i].tokens && ps[i].last == blocks[i].last
         && (ps[i].form.Stored? ==> blocks[i].buf == Some(ps[i].form.buf))
  }

  lemma WrittenMore(tab: CodeTables, blocks: seq<Block>, ps: seq<Piece>, b: Block, p: Piece)
    requires Written(tab, blocks, ps) && FormOk(tab, p.form, p.ts) && p.ts == b.tokens && p.last == b.last
    requires p.form.Stored? ==> b.buf == Some(p.form.buf)
    ensures Written(tab, blocks + [b], ps + [p])
  {
    hide FormOk;
  }

  /** The frequencies that _tr_tally has counted for a block. */
  method TallyBlock(tokens: seq<Token>, tab: CodeTables) returns (lfreq: seq<nat>, dfreq: seq<nat>)
    requires AllTallyable(tab, tokens)
    ensures lfreq == LFreq(tab, tokens) && dfreq == DFreq(tab, tokens)
  {
    hide CodeTables.Ok, LFreq, DFreq;
    lfreq, dfreq := Zeros(286)[END_BLOCK := 1], Zeros(30);
    FreshFreqs(tab);
    var i := 0;
    assert tokens[..0] == [];
    while i < |tokens|
      invariant 0 <= i <= |tokens| && AllTallyable(tab, tokens[..i]) && lfreq == LFreq(tab, tokens[..i]) &&
                dfreq == DFreq(tab, tokens[..i])
    {
      assert tokens[..i] + [tokens[i]] == tokens[..i + 1];
      lfreq, dfreq := TrTally(lfreq, dfreq, tokens[i], tab, tokens[..i]);
      i := i + 1;
    }
    assert tokens[..|tokens|] == tokens;
  }

  lemma FreshFreqs(tab: CodeTables)
    requires tab.Ok()
    ensures LFreq(tab, []) == Zeros(286)[END_BLOCK := 1] && DFreq(tab, []) == Zeros(30)
  {
  }

  lemma {:induction false} PiecesBitsMore(tab: CodeTables, pos: nat, ps: seq<Piece>, p: Piece)
    requires Writable(tab, ps) && FormOk(tab, p.form, p.ts)
    ensures Writable(tab, ps + [p])
    ensures PiecesBits(tab, pos, ps + [p]) ==
            PiecesBits(tab, pos, ps) + FormBits(tab, p.form, pos + |PiecesBits(tab, pos, ps)|, p.ts, p.last)
    decreases |ps|
  {
    hide FormOk, FormBits;
    var all := ps + [p];
    if ps == [] {
      assert all == [p] && all[1..] == [];
      assert FormBits(tab, p.form, pos, p.ts, p.last) + [] == FormBits(tab, p.form, pos, p.ts, p.last);
    } else {
      assert all[1..] == ps[1..] + [p];
      PiecesBitsMore(tab, pos + |FormBits(tab, ps[0].form, pos, ps[0].ts, ps[0].last)|, ps[1..], p);
    }
  }

  lemma NoPieces(tab: CodeTables, pos: nat)
    ensures Writable(tab, []) && PiecesBits(tab, pos, []) == []
  {
  }

  lemma {:induction false} BytesConcat(a: seq<Byte>, b: seq<Byte>)
    ensures BytesBits(a + b) == BytesBits(a) + BytesBits(b)
    decreases |b|
  {
    hide BitsOf;
    if b == [] {
      assert a + b == a;
    } else {
      var n := |b| - 1;
      assert (a + b)[..|a| + n] == a + b[..n];
      BytesConcat(a, b[..n]);
    }
  }

  /** All bits of a stream: what comes before the blocks, the blocks, zeros up to the next byte, and
      what comes behind. */
  ghost function Content(tab: CodeTables, head: seq<Byte>, ps: seq<Piece>, pad: nat, tail: seq<Byte>): Bits
    requires Writable(tab, ps)
  {
    BytesBits(head) + PiecesBits(tab, 8 * |head|, ps) + (BitsOf(0, pad) + BytesBits(tail))
  }

  lemma {:induction false} PiecesSplit(tab: CodeTables, pos: nat, ps: seq<Piece>, m: nat)
    requires Writable(tab, ps) && m <= |ps|
    ensures Writable(tab, ps[..m]) && Writable(tab, ps[m..])
    ensures var front := PiecesBits(tab, pos, ps[..m]);
            PiecesBits(tab, pos, ps) == front + PiecesBits(tab, pos + |front|, ps[m..])
    decreases m
  {
    hide FormOk, FormBits;
    if m == 0 {
      assert ps[0..] == ps && ps[..0] == [];
    } else {
      var first := FormBits(tab, ps[0].form, pos, ps[0].ts, ps[0].last);
      PiecesSplit(tab, pos + |first|, ps[1..], m - 1);
      assert ps[..m][1..] == ps[1..][..m - 1] && ps[m..] == ps[1..][m - 1..] && ps[..m][0] == ps[0];
    }
  }

  /** The pieces before the mark are not the last ones, and end with a byte, at the offset. */
  ghost predicate Anchored(tab: CodeTables, n: nat, ps: seq<Piece>, mark: nat, offset: nat) {
    mark > 0 ==>
      mark <= |ps| && !ps[mark - 1].last && Writable(tab, ps[..mark]) &&
      8 * n + |PiecesBits(tab, 8 * n, ps[..mark])| == 8 * offset
  }

  lemma AnchoredMore(tab: CodeTables, n: nat, ps: seq<Piece>, mark: nat, offset: nat, p: Piece)
    requires Anchored(tab, n, ps, mark, offset)
    ensures Anchored(tab, n, ps + [p], mark, offset)
  {
    hide Writable, PiecesBits;
    if mark > 0 { assert (ps + [p])[..mark] == ps[..mark]; }
  }

  lemma ContentMore(tab: CodeTables, head: seq<Byte>, ps: seq<Piece>, p: Piece, pad: nat)
    requires Writable(tab, ps) && FormOk(tab, p.form, p.ts)
    ensures Writable(tab, ps + [p])
    ensures var all := Content(tab, head, ps, 0, []);
            Content(tab, head, ps + [p], pad, []) == all + FormBits(tab, p.form, |all|, p.ts, p.last) + BitsOf(0, pad)
  {
    hide FormOk, FormBits, PiecesBits, BitsOf, Writable;
    PiecesBitsMore(tab, 8 * |head|, ps, p);
    NoBits(0);
    NothingBehind(BytesBits(head) + PiecesBits(tab, 8 * |head|, ps), 0);
    var h, q := BytesBits(head), PiecesBits(tab, 8 * |head|, ps);
    var f := FormBits(tab, p.form, |h + q|, p.ts, p.last);
    Assoc(h, q, f);
    NothingBehind(h + (q + f), pad);
  }

  lemma NothingBehind(s: Bits, pad: nat)
    ensures s + (BitsOf(0, pad) + BytesBits([])) == s + BitsOf(0, pad) && s + BitsOf(0, 0) == s
  {
    assert BytesBits([]) == [];
    assert BitsOf(0, 0) == [];
  }

  /** deflate_state, as far as it writes: blocks go out through w. */
  class BlockWriter {
    const w: BitWriter
    const tab: CodeTables
    const level: nat
    const sl: seq<Node>
    const sd: seq<Node>
    var lastEobLen: nat
    ghost var head: seq<Byte>
    ghost var ps: seq<Piece>
    ghost var pad: nat
    ghost var tail: seq<Byte>

    // The pieces before the last full flush, and the bytes up to there; no pieces if there was none.
    ghost var mark: nat
    ghost var offset: nat

    ghost predicate Tables() { tab.Ok() && TreeFor(sl, StaticL()) && TreeFor(sd, StaticD()) && level > 0 }

    /** All bits that were sent are those of the blocks, with header and trailer. */
    ghost predicate Wrote(blocks: seq<Block>)
      reads this`head, this`ps, this`pad, this`tail, this`mark, this`offset, w`pendingBuf, w`pendingOut, w`nextOut,
            w`biBuf, w`biValid
    {
      && Tables() && w.Holding() && Written(tab, blocks, ps) && pad < 8
      && w.Sent() == Content(tab, head, ps, pad, tail)
      && Anchored(tab, |head|, ps, mark, offset)
    }

    /** Nothing has been written yet. */
    ghost predicate Unused()
      reads this`head, this`ps, this`pad, this`tail, this`mark, this`offset, w`pendingBuf, w`pendingOut, w`nextOut,
            w`biBuf, w`biValid
    {
      Wrote([]) && Open() && w.Valid() && w.biValid == 0 && w.Pending() == 0 && head == w.Bytes() == [] && mark == 0
    }

    /** More blocks may follow. */
    ghost predicate Open()
      reads this`pad, this`tail
    {
      pad == 0 && tail == []
    }

    constructor (tab: CodeTables, sl: seq<Node>, sd: seq<Node>, level: nat)
      requires tab.Ok() && TreeFor(sl, StaticL()) && TreeFor(sd, StaticD()) && level > 0
      ensures Unused() && fresh(w) && w.nextOut == [] && this.level == level
    {
      this.tab, this.sl, this.sd, this.level := tab, sl, sd, level;
      w := new BitWriter();
      lastEobLen, head, ps, pad, tail, mark, offset := 8, [], [], 0, [], 0, 0;
      new;
      NoPieces(tab, 0);
      assert BytesBits([]) == [];
      assert BitsOf(0, 0) == [];
    }

    /** _tr_init: with the static trees of tr_static_init. */
    static method TrInit(level: nat) returns (b: BlockWriter)
      requires level > 0
      ensures b.Unused() && fresh(b) && fresh(b.w) && b.w.nextOut == [] && b.level == level
    {
      var tab := TrStaticInit();
      var sl := StaticLtree();
      var sd := StaticDtree();
      b := new BlockWriter(tab, sl, sd, level);
    }

    /** FLUSH_BLOCK_ONLY: a block through _tr_flush_block, then as much output as possible. */
    method WriteBlock(b: Block, ghost blocks: seq<Block>)
      requires Wrote(blocks) && Open() && w.Valid() && (forall i :: 0 <= i < |b.tokens| ==> b.tokens[i].dist <= 0x8000)
      requires b.buf.Some? ==> |b.buf.value| == b.storedLen < 0x10000
      modifies this`lastEobLen, this`ps, this`pad, w
      ensures Wrote(blocks + [b]) && tail == [] && (if b.last then w.biValid == 0 else Open())
      ensures old(w.nextOut) <= w.nextOut && |w.nextOut| + w.availOut == old(|w.nextOut| + w.availOut)
      ensures w.availOut > 0 ==> w.Valid() && w.nextOut == w.Bytes()
    {
      hide BitWriter.Sent, BitWriter.Bytes, FormOk, FormBits, PiecesBits, TreeFor, CodeTables.Ok, BitsOf, LFreq, DFreq,
           Written, Content, Writable, Anchored;
      var lfreq, dfreq := TallyBlock(b.tokens, tab);
      ghost var form, sent := Stored([]), w.Sent();
      var opt, stat;
      opt, stat, lastEobLen, form, pad :=
        TrFlushBlock(w, tab, b.tokens, lfreq, dfreq, b.buf, b.storedLen, b.last, level, sl, sd);
      ghost var p := Piece(form, b.tokens, b.last);
      PiecesWritable(tab, blocks, ps);
      ContentMore(tab, head, ps, p, pad);
      WrittenMore(tab, blocks, ps, b, p);
      AnchoredMore(tab, |head|, ps, mark, offset, p);
      ps := ps + [p];
      w.FlushPending();
    }

    lemma WroteHolds(blocks: seq<Block>)
      requires Wrote(blocks)
      ensures w.Holding()
    {
      hide Content, Written;
    }

    /** flush_pending. */
    method FlushOut(ghost blocks: seq<Block>)
      requires Wrote(blocks)
      modifies w`pendingBuf, w`pendingOut, w`nextOut, w`availOut
      ensures Wrote(blocks) && old(w.nextOut) <= w.nextOut && |w.nextOut| + w.availOut == old(|w.nextOut| + w.availOut)
      ensures w.Bytes() == old(w.Bytes()) && (w.nextOut != w.Bytes() ==> w.availOut == 0) && w.Holding()
      ensures w.Pending() == 0 ==> w.nextOut == w.Bytes()
      ensures w.availOut > 0 <==> old(w.availOut) > old(w.Pending())
      ensures w.availOut > 0 ==> w.Valid() && w.Pending() == 0
    {
      hide BitWriter.Sent, BitWriter.Bytes, Content, Written, BlockWriter.Tables, Anchored;
      w.FlushPending();
    }

    /** One empty block with the static trees. */
    method EmptyStatic(ghost blocks: seq<Block>)
      requires Wrote(blocks) && Open() && w.Valid()
      modifies this`ps, w`pendingBuf, w`biBuf, w`biValid
      ensures Wrote(blocks + [NoTokens()]) && Open() && w.Valid() && w.biValid < 8
      ensures w.Sent() == old(w.Sent()) + EmptyBits() && |w.Sent()| == old(|w.Sent()|) + 10
    {
      hide BitWriter.Sent, BitWriter.Bytes, FormOk, FormBits, PiecesBits, TreeFor, CodeTables.Ok, BitsOf, Written,
           Content, Writable, CodeBits, TypeBits, StaticL, Anchored;
      EmptyForm(tab, |w.Sent()|);
      EmptySize();
      ghost var sent := w.Sent();
      SendType(w, 1, false);
      SendCode(w, sl, END_BLOCK, StaticL());
      Assoc(sent, TypeBits(1, false), CodeBits(StaticL(), END_BLOCK));
      w.BiFlush();
      PiecesWritable(tab, blocks, ps);
      ghost var p := Piece(Static, [], false);
      ContentMore(tab, head, ps, p, 0);
      NothingSent(sent + EmptyBits());
      WrittenMore(tab, blocks, ps, NoTokens(), p);
      AnchoredMore(tab, |head|, ps, mark, offset, p);
      ps := ps + [p];
    }

    /** _tr_align: one or two empty blocks, so that from the last code of the block before them, if
        it has at least one bit, there are 9 bits in whole bytes. */
    method TrAlign(ghost blocks: seq<Block>) returns (more: seq<Block>)
      requires Wrote(blocks) && Open() && w.Valid()
      modifies this`ps, this`lastEobLen, w`pendingBuf, w`biBuf, w`biValid
      ensures Wrote(blocks + more) && Open() && w.Valid() && (more == [NoTokens()] || more == [NoTokens(), NoTokens()])
      ensures w.biValid < 8 && 1 + old(lastEobLen) + (|w.Sent()| - old(|w.Sent()|)) - w.biValid >= 9 && lastEobLen == 7
    {
      hide BlockWriter.Wrote, BitWriter.Sent, BitWriter.Bytes;
      EmptyStatic(blocks);
      more := [NoTokens()];
      if 1 + lastEobLen + 10 - w.biValid < 9 {
        EmptyStatic(blocks + more);
        more := [NoTokens(), NoTokens()];
        assert blocks + [NoTokens()] + [NoTokens()] == blocks + more;
      }
      lastEobLen := 7;
    }

    /** `_tr_stored_block(s, 0, 0, 0)`: an empty stored block. */
    method StoreNothing(ghost blocks: seq<Block>)
      requires Wrote(blocks) && Open() && w.Valid()
      modifies this`ps, this`lastEobLen, w`pendingBuf, w`biBuf, w`biValid
      ensures Wrote(blocks + [NoTokens().(buf := Some([]))]) && Open() && w.Valid() && w.biValid == 0
      ensures ps == old(ps) + [Piece(Stored([]), [], false)]
    {
      hide BitWriter.Sent, BitWriter.Bytes, FormOk, FormBits, PiecesBits, TreeFor, CodeTables.Ok, BitsOf, Written,
           Content, Writable, Anchored;
      ghost var sent := w.Sent();
      ghost var form := SendStored(w, tab, [], [], false);
      lastEobLen := 8;
      PiecesWritable(tab, blocks, ps);
      ghost var p := Piece(form, [], false);
      ContentMore(tab, head, ps, p, 0);
      NothingSent(sent + FormBits(tab, form, |sent|, [], false));
      WrittenMore(tab, blocks, ps, NoTokens().(buf := Some([])), p);
      AnchoredMore(tab, |head|, ps, mark, offset, p);
      ps := ps + [p];
    }

    /** A decoder may start here. */
    ghost method Anchor(blocks: seq<Block>)
      requires Wrote(blocks) && Open() && w.Valid() && w.biValid == 0 && forall i :: 0 <= i < |blocks| ==>
                 !blocks[i].last
      modifies this`mark, this`offset
      ensures Wrote(blocks) && mark == |ps| && offset == |w.Bytes()|
    {
      hide BitWriter.Bytes, PiecesBits, BitsOf, BytesBits, Writable, CodeTables.Ok, TreeFor;
      PiecesWritable(tab, blocks, ps);
      NoBits(w.biBuf);
      NothingSent(BytesBits(w.Bytes()));
      NothingBehind(BytesBits(head) + PiecesBits(tab, 8 * |head|, ps), 0);
      assert ps[..|ps|] == ps;
      mark, offset := |ps|, |w.Bytes()|;
    }

    /** putShortMSB before the first block. */
    method PutHead(b: nat)
      requires Wrote([]) && Open() && w.Valid() && w.biValid == 0 && w.Bytes() == head && b < 0x10000
      modifies this`head, w`pendingBuf
      ensures Wrote([]) && Open() && w.Valid() && w.biValid == 0 &&
              w.Bytes() == head == old(head) + [b / 0x100, b % 0x100]
      ensures w.Pending() == old(w.Pending()) + 2
    {
      hide BitWriter.Bytes, CodeTables.Ok, TreeFor, PiecesBits, BitsOf, BytesBits, Writable;
      w.PutShortMSB(b);
      head := head + [b / 0x100, b % 0x100];
      NoPieces(tab, 8 * |head|);
      NothingBehind(BytesBits(head), 0);
      NoBits(w.biBuf);
      NothingSent(BytesBits(head));
      assert BytesBits(head) + [] == BytesBits(head);
    }

    /** putShortMSB behind the last block. */
    method PutTail(b: nat, ghost blocks: seq<Block>)
      requires Wrote(blocks) && w.Valid() && w.biValid == 0 && b < 0x10000
      modifies this`tail, w`pendingBuf
      ensures Wrote(blocks) && w.Valid() && w.biValid == 0 && tail == old(tail) + [b / 0x100, b % 0x100]
    {
      hide BitWriter.Bytes, CodeTables.Ok, TreeFor, PiecesBits, BitsOf, BytesBits, Written, Anchored;
      PiecesWritable(tab, blocks, ps);
      ghost var bytes, more := w.Bytes(), [b / 0x100, b % 0x100];
      w.PutShortMSB(b);
      NoBits(w.biBuf);
      BytesConcat(bytes, more);
      BytesConcat(tail, more);
      NothingSent(BytesBits(bytes)); NothingSent(BytesBits(bytes) + BytesBits(more));
      ghost var h, p, z := BytesBits(head), PiecesBits(tab, 8 * |head|, ps), BitsOf(0, pad);
      assert h + p + (z + BytesBits(tail)) + BytesBits(more) == h + p + (z + (BytesBits(tail) + BytesBits(more)));
      tail := tail + more;
    }
  }

  /** The block that a flush adds. */
  function NoTokens(): Block { Block([], None, 0, false) }

  ghost function EmptyBits(): Bits { TypeBits(1, false) + CodeBits(StaticL(), END_BLOCK) }

  lemma EmptySize()
    ensures |EmptyBits()| == 10
    ensures |StaticL()| == 288 && StaticL()[END_BLOCK] == 7
  {
  }

  lemma EmptyForm(tab: CodeTables, pos: nat)
    requires tab.Ok()
    ensures FormOk(tab, Static, []) && FormBits(tab, Static, pos, [], false) == EmptyBits()
  {
    hide CodeTables.Ok, CodeBits, TypeBits;
    NothingSent(CodeBits(StaticL(), END_BLOCK));
  }

  lemma NothingSent(s: Bits)
    ensures s + [] == s == [] + s && s + BitsOf(0, 0) == s
  {
    assert BitsOf(0, 0) == [];
  }

  lemma PiecesWritable(tab: CodeTables, blocks: seq<Block>, ps: seq<Piece>)
    requires Written(tab, blocks, ps)
    ensures Writable(tab, ps)
  {
  }
}
