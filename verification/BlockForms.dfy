/** The three ways to write a block, and that the decoder reads each as the same text (sections
    3.2.3 and 3.2.4 of RFC 1951). */
module BlockForms {
  import opened Arith
  import opened BitStrings
  import opened BitStream
  import opened StringHash
  import opened Tokens
  import opened SymbolCodes
  import opened CopyCodes
  import opened StaticCodes
  import opened BlockFields
  import opened Alphabet
  import opened Decoder
  import opened RunsTo
  import opened BlockBody
  import opened RunLengths
  import opened TreeHeader

  /** A block is stored, or coded with the static trees, or with trees of its own. */
  datatype Form =
    | Stored(buf: seq<Byte>)
    | Static
    | Dynamic(ll: seq<nat>, dl: seq<nat>, bl: seq<nat>, blcodes: nat)

  /** What is needed to write the tokens ts in a form. */
  ghost predicate FormOk(tab: CodeTables, form: Form, ts: seq<Token>) {
    match form
    case Stored(buf) => |buf| < 0x10000
    case Static => AllEncodable(tab, StaticL(), StaticD(), ts)
    case Dynamic(ll, dl, bl, blcodes) =>
      Header(ll, dl, bl, blcodes) && AllEncodable(tab, ll, dl, ts) && |ll| > END_BLOCK && ll[END_BLOCK] > 0
  }

  /** Block type and last-block bit. */
  function TypeBits(kind: nat, last: bool): (s: Bits)
    ensures |s| == 3
  {
    BitsOf(2 * kind + (if last then 1 else 0), 3)
  }

  ghost function StoredBits(pos: nat, buf: seq<Byte>): Bits
    requires |buf| < 0x10000
  {
    BitsOf(0, ByteBoundary(pos) - pos) + (BitsOf(|buf|, 16) + (BitsOf(0xffff - |buf|, 16) + BytesBits(buf)))
  }

  /** The bits of a block that starts at position pos of the stream. */
  ghost function FormBits(tab: CodeTables, form: Form, pos: nat, ts: seq<Token>, last: bool): Bits
    requires FormOk(tab, form, ts)
  {
    match form
    case Stored(buf) => TypeBits(0, last) + StoredBits(pos + 3, buf)
    case Static => TypeBits(1, last) + (TokensBits(tab, StaticL(), StaticD(), ts) + CodeBits(StaticL(), END_BLOCK))
    case Dynamic(ll, dl, bl, blcodes) =>
      TypeBits(2, last) + (HeaderBits(ll, dl, bl, blcodes) + (TokensBits(tab, ll, dl, ts) + CodeBits(ll, END_BLOCK)))
  }

  /** The three bits at the start of a block. */
  lemma RunType(env: Env, s: State, kind: nat, last: bool)
    requires StateOk(env, s) && s.mode.BlockType? && kind <= 2 && BitsAt(env.bits, s.pos, TypeBits(kind, last))
    ensures Step(env, s) ==
            s.(mode := if kind == 0 then StoredSize else if kind == 1 then InBlock(StaticL(), StaticD(), Symbol)
            else TreeCounts,
                               last := last, pos := if kind == 0 then ByteBoundary(s.pos + 3) else s.pos + 3)
  {
    hide Peek, BitsOf, ByteBoundary, Pow2;
    SmallPowers();
    NumberAt(env.bits, s.pos, 2 * kind + (if last then 1 else 0), 3);
  }

  /** The bytes of a stored block, one by one. */
  lemma {:induction false} RunStored(env: Env, s: State, buf: seq<Byte>)
    requires StateOk(env, s) && buf != [] && s.mode == StoredBytes(|buf|) && BitsAt(env.bits, s.pos, BytesBits(buf))
    ensures var t := s.(mode := NextBlock(s.last), pos := s.pos + 8 * |buf|, text := s.text + buf);
            StateOk(env, t) && Reaches(env, s, t)
    decreases |buf|
  {
    hide Peek, BitsOf, Reaches, BytesBits;
    BytesFront(buf);
    BitsAtSplit(env.bits, s.pos, BitsOf(buf[0], 8), BytesBits(buf[1..]));
    assert Pow2(8) == 256;
    NumberAt(env.bits, s.pos, buf[0], 8);
    ReachStep(env, s);
    var t := Step(env, s);
    assert t.text == s.text + [buf[0]];
    if |buf| > 1 {
      RunStored(env, t, buf[1..]);
      assert s.text + [buf[0]] + buf[1..] == s.text + buf;
      ReachTrans(env, s, t, s.(mode := NextBlock(s.last), pos := s.pos + 8 * |buf|, text := s.text + buf));
    } else {
      assert [buf[0]] == buf;
    }
  }

  lemma {:induction false} BytesFront(buf: seq<Byte>)
    requires buf != []
    ensures BytesBits(buf) == BitsOf(buf[0], 8) + BytesBits(buf[1..])
  {
    hide BitsOf;
    var n := |buf| - 1;
    if n == 0 {
      assert buf[..0] == [] && buf[1..] == [];
      assert BitsOf(buf[0], 8) + [] == BitsOf(buf[0], 8);
      assert [] + BitsOf(buf[0], 8) == BitsOf(buf[0], 8);
    } else {
      BytesFront(buf[..n]);
      assert buf[..n][1..] == buf[1..][..n - 1];
    }
  }

  /** The length of a stored block. */
  lemma RunLens(env: Env, s: State, n: nat)
    requires StateOk(env, s) && s.mode.StoredSize? && n < 0x10000 && BitsAt(env.bits, s.pos, BitsOf(n, 16)) &&
             BitsAt(env.bits, s.pos + 16, BitsOf(0xffff - n, 16))
    ensures Step(env, s) == s.(mode := if n > 0 then StoredBytes(n) else NextBlock(s.last), pos := s.pos + 32)
  {
    hide Peek, BitsOf;
    assert Pow2(8) == 256;
    assert Pow2(12) == 4096;
    assert Pow2(16) == 65536;
    NumberAt(env.bits, s.pos, n, 16);
    NumberAt(env.bits, s.pos + 16, 0xffff - n, 16);
  }

  lemma RunStoredBlock(env: Env, s: State, buf: seq<Byte>, last: bool)
    requires StateOk(env, s) && s.mode.BlockType? && |buf| < 0x10000 &&
             BitsAt(env.bits, s.pos, TypeBits(0, last) + StoredBits(s.pos + 3, buf))
    ensures var t := s.(mode := NextBlock(last), last := last, pos := s.pos + 3 + |StoredBits(s.pos + 3, buf)|,
            text := s.text + buf);
            StateOk(env, t) && Reaches(env, s, t)
  {
    hide BitsOf, BytesBits, StateOk, Reaches, Step, ByteBoundary, TypeBits;
    var pad, a, b, c := BitsOf(0, ByteBoundary(s.pos + 3) - (s.pos + 3)), BitsOf(|buf|, 16), BitsOf(0xffff - |buf|, 16),
        BytesBits(buf);
    BitsAtSplit(env.bits, s.pos, TypeBits(0, last), StoredBits(s.pos + 3, buf));
    BitsAtSplit(env.bits, s.pos + 3, pad, a + (b + c));
    var p := ByteBoundary(s.pos + 3);
    BitsAtSplit(env.bits, p, a, b + c);
    BitsAtSplit(env.bits, p + 16, b, c);
    RunType(env, s, 0, last);
    ReachStep(env, s);
    var t := Step(env, s);
    RunLens(env, t, |buf|);
    ReachStep(env, t);
    var u := Step(env, t);
    ReachTrans(env, s, t, u);
    if buf == [] {
      assert s.text + buf == s.text;
    } else {
      RunStored(env, u, buf);
      ReachTrans(env, s, u, u.(mode := NextBlock(last), pos := u.pos + 8 * |buf|, text := u.text + buf));
    }
  }

  lemma StaticReadable()
    ensures Readable(StaticL(), StaticD())
  {
    hide Kraft, Pow2;
    StaticLFits();
    StaticDFits();
  }

  lemma RunStaticBlock(env: Env, s: State, tab: CodeTables, ts: seq<Token>, last: bool)
    requires StateOk(env, s) && s.mode.BlockType? && FormOk(tab, Static, ts)
    requires forall i :: 0 <= i < |ts| ==> ts[i].dist <= env.w
    requires BitsAt(env.bits, s.pos, FormBits(tab, Static, s.pos, ts, last))
    ensures var t := s.(mode := NextBlock(last), last := last, pos := s.pos + |FormBits(tab, Static, s.pos, ts, last)|,
            text := Expand(s.text, ts));
            StateOk(env, t) && Reaches(env, s, t)
  {
    hide StateOk, Reaches, Step, TokensBits, CodeBits, TypeBits, AllEncodable, Expand, Readable;
    var body := TokensBits(tab, StaticL(), StaticD(), ts) + CodeBits(StaticL(), END_BLOCK);
    BitsAtSplit(env.bits, s.pos, TypeBits(1, last), body);
    RunType(env, s, 1, last);
    ReachStep(env, s);
    var t := Step(env, s);
    StaticReadable();
    RunBody(env, t, tab, StaticL(), StaticD(), ts);
    ReachTrans(env, s, t, t.(mode := NextBlock(last), pos := t.pos + |body|, text := Expand(s.text, ts)));
  }

  lemma RunDynamicBlock(env: Env, s: State, tab: CodeTables, form: Form, ts: seq<Token>, last: bool)
    requires StateOk(env, s) && s.mode.BlockType? && form.Dynamic? && FormOk(tab, form, ts)
    requires forall i :: 0 <= i < |ts| ==> ts[i].dist <= env.w
    requires BitsAt(env.bits, s.pos, FormBits(tab, form, s.pos, ts, last))
    ensures var t := s.(mode := NextBlock(last), last := last, pos := s.pos + |FormBits(tab, form, s.pos, ts, last)|,
            text := Expand(s.text, ts));
            StateOk(env, t) && Reaches(env, s, t)
  {
    hide StateOk, Reaches, Step, TokensBits, CodeBits, TypeBits, AllEncodable, Expand, HeaderBits, AllSendable, Items,
         Kraft, Pow2, bl_order;
    var Dynamic(ll, dl, bl, blcodes) := form;
    var header, body := HeaderBits(ll, dl, bl, blcodes), TokensBits(tab, ll, dl, ts) + CodeBits(ll, END_BLOCK);
    BitsAtSplit(env.bits, s.pos, TypeBits(2, last), header + body);
    BitsAtSplit(env.bits, s.pos + 3, header, body);
    RunType(env, s, 2, last);
    ReachStep(env, s);
    var t := Step(env, s);
    RunHeader(env, t, ll, dl, bl, blcodes);
    var u := t.(mode := InBlock(ll, dl, Symbol), pos := t.pos + |header|);
    ReachTrans(env, s, t, u);
    RunBody(env, u, tab, ll, dl, ts);
    ReachTrans(env, s, u, u.(mode := NextBlock(last), pos := u.pos + |body|, text := Expand(s.text, ts)));
  }

  /** A block as it was written: its form, its tokens, and whether it is the last. */
  datatype Piece = Piece(form: Form, ts: seq<Token>, last: bool)

  /** A piece that can be written and read behind a text: a stored block holds what its tokens
      mean, the distances of a coded block are within the window. */
  ghost predicate PieceOk(tab: CodeTables, w: nat, text: seq<Byte>, p: Piece) {
    && FormOk(tab, p.form, p.ts)
    && if p.form.Stored? then Expand(text, p.ts) == text + p.form.buf else forall i :: 0 <= i < |p.ts| ==>
         p.ts[i].dist <= w
  }

  /** However a block was written, it is read as the text its tokens mean. */
  lemma RunBlock(env: Env, s: State, tab: CodeTables, p: Piece)
    requires StateOk(env, s) && s.mode.BlockType? && PieceOk(tab, env.w, s.text, p)
    requires BitsAt(env.bits, s.pos, FormBits(tab, p.form, s.pos, p.ts, p.last))
    ensures var t := s.(mode := NextBlock(p.last), last := p.last,
            pos := s.pos + |FormBits(tab, p.form, s.pos, p.ts, p.last)|, text := Expand(s.text, p.ts));
            StateOk(env, t) && Reaches(env, s, t)
  {
    hide StateOk, Reaches, Expand, StoredBits, TypeBits, TokensBits, HeaderBits, CodeBits, AllEncodable, Header;
    match p.form {
      case Stored(buf) => RunStoredBlock(env, s, buf, p.last);
      case Static => RunStaticBlock(env, s, tab, p.ts, p.last);
      case Dynamic(_, _, _, _) => RunDynamicBlock(env, s, tab, p.form, p.ts, p.last);
    }
  }

  /** Pieces that follow each other behind a text. */
  ghost predicate PiecesOk(tab: CodeTables, w: nat, text: seq<Byte>, ps: seq<Piece>)
    decreases |ps|
  {
    ps == [] || (PieceOk(tab, w, text, ps[0]) && PiecesOk(tab, w, Expand(text, ps[0].ts), ps[1..]))
  }

  ghost predicate Writable(tab: CodeTables, ps: seq<Piece>) {
    forall i :: 0 <= i < |ps| ==> FormOk(tab, ps[i].form, ps[i].ts)
  }

  /** The bits of pieces that start at position pos of the stream. */
  ghost function PiecesBits(tab: CodeTables, pos: nat, ps: seq<Piece>): Bits
    requires Writable(tab, ps)
    decreases |ps|
  {
    if ps == [] then [] else
      var first := FormBits(tab, ps[0].form, pos, ps[0].ts, ps[0].last);
      first + PiecesBits(tab, pos + |first|, ps[1..])
  }

  /** What pieces mean behind a text. */
  function PiecesText(text: seq<Byte>, ps: seq<Piece>): seq<Byte>
    decreases |ps|
  {
    if ps == [] then text else PiecesText(Expand(text, ps[0].ts), ps[1..])
  }

  /** No piece but the final one is marked as the last. */
  ghost predicate LastAtEnd(ps: seq<Piece>) { forall i :: 0 <= i < |ps| - 1 ==> !ps[i].last }

  /** Blocks are read as what they mean; behind the last one the decoder is done. */
  lemma {:induction false} RunPieces(env: Env, s: State, tab: CodeTables, ps: seq<Piece>)
    requires StateOk(env, s) && s.mode.BlockType? && PiecesOk(tab, env.w, s.text, ps) && Writable(tab, ps) &&
             LastAtEnd(ps)
    requires BitsAt(env.bits, s.pos, PiecesBits(tab, s.pos, ps))
    ensures var last := if ps == [] then s.last else ps[|ps| - 1].last;
            var mode := if ps == [] then BlockType else NextBlock(last);
            var t := State(mode, last, s.pos + |PiecesBits(tab, s.pos, ps)|, PiecesText(s.text, ps));
            StateOk(env, t) && Reaches(env, s, t)
    decreases |ps|
  {
    hide StateOk, Reaches, Expand, FormBits, PieceOk, Step, FormOk;
    if ps == [] {
      ReachSelf(env, s);
    } else {
      var p := ps[0];
      var first := FormBits(tab, p.form, s.pos, p.ts, p.last);
      var rest := PiecesBits(tab, s.pos + |first|, ps[1..]);
      BitsAtSplit(env.bits, s.pos, first, rest);
      RunBlock(env, s, tab, p);
      var t := s.(mode := NextBlock(p.last), last := p.last, pos := s.pos + |first|, text := Expand(s.text, p.ts));
      if |ps| == 1 {
        assert ps[1..] == [];
      } else {
        assert !p.last;
        RunPieces(env, t, tab, ps[1..]);
        var last := ps[|ps| - 1].last;
        ReachTrans(env, s, t, State(NextBlock(last), last, t.pos + |rest|, PiecesText(t.text, ps[1..])));
      }
    }
  }
}
