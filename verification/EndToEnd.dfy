/** From the input of the compressor to the output of the decompressor. */
module EndToEnd {
  import opened Arith
  import opened Options
  import opened BitStrings
  import opened BitStream
  import opened BitOutput
  import opened StringHash
  import opened Tokens
  import opened Canonical
  import opened BlockOutput
  import opened Alphabet
  import Decoder
  import opened RunsTo
  import opened BlockBody
  import opened BlockForms
  import opened BlockWriting
  import opened Adler
  import Inflating
  import Deflate
  import Decompression
  import BitBuffer
  import Parsing
  import CircularWindow

  /** Bytes before the text do not matter to copies within it. */
  lemma {:induction false} CopyBehind(init: seq<Byte>, out: seq<Byte>, dist: nat, n: nat)
    requires 1 <= dist <= |out|
    ensures Copy(init + out, dist, n) == init + Copy(out, dist, n)
    decreases n
  {
    if n > 0 {
      var x := out[|out| - dist];
      assert (init + out)[|init + out| - dist] == x;
      assert init + out + [x] == init + (out + [x]);
      CopyBehind(init, out + [x], dist, n - 1);
    }
  }

  lemma {:induction false} ExpandBehind(far: int, init: seq<Byte>, out: seq<Byte>, ts: seq<Token>)
    requires Reaching(far, out, ts)
    ensures Expand(init + out, ts) == init + Expand(out, ts)
    decreases |ts|
  {
    if ts != [] {
      var n := |ts| - 1;
      ExpandBehind(far, init, out, ts[..n]);
      var so, t := Expand(out, ts[..n]), ts[n];
      if t.dist == 0 {
        assert init + so + [t.lc] == init + (so + [t.lc]);
      } else {
        CopyBehind(init, so, t.dist, t.lc + MIN_MATCH);
      }
    }
  }

  /** The first block, and the others behind it. */
  lemma {:induction false} FirstBlock(far: int, out: seq<Byte>, blocks: seq<Block>)
    requires blocks != [] && StoredAgrees(out, blocks) && AllReaching(far, out, blocks)
    ensures var out', rest := Expand(out, blocks[0].tokens), blocks[1..];
            && Meaning(out, blocks) == Meaning(out', rest) && StoredAgrees(out', rest) && AllReaching(far, out', rest)
            && Reaching(far, out, blocks[0].tokens) && (blocks[0].buf.Some? ==> out' == out + blocks[0].buf.value)
    decreases |blocks|
  {
    hide Expand, Reaching;
    var n := |blocks| - 1;
    var before, b := blocks[..n], blocks[n];
    if n == 0 {
      assert before == [];
      assert blocks[1..] == [];
    } else {
      FirstBlock(far, out, before);
      var rest := blocks[1..];
      assert rest[..n - 1] == before[1..] && rest[n - 1] == b;
    }
  }

  /** What was written of blocks means what they mean. */
  lemma {:induction false} PiecesMean(tab: CodeTables, far: int, w: nat, init: seq<Byte>, out: seq<Byte>,
                                      blocks: seq<Block>, ps: seq<Piece>)
    requires StoredAgrees(out, blocks) && AllReaching(far, out, blocks) && Written(tab, blocks, ps) && far <= w
    ensures PiecesOk(tab, w, init + out, ps) && PiecesText(init + out, ps) == init + Meaning(out, blocks)
    decreases |ps|
  {
    hide Expand, Reaching, FormOk, StoredAgrees, AllReaching;
    if ps != [] {
      FirstBlock(far, out, blocks);
      var p := ps[0];
      ExpandBehind(far, init, out, p.ts);
      ReachingAtMost(far, out, p.ts);
      if p.form.Stored? { assert init + out + p.form.buf == init + (out + p.form.buf); }
      assert PieceOk(tab, w, init + out, p);
      WrittenRest(tab, blocks, ps);
      PiecesMean(tab, far, w, init, Expand(out, p.ts), blocks[1..], ps[1..]);
    }
  }

  lemma WrittenRest(tab: CodeTables, blocks: seq<Block>, ps: seq<Piece>)
    requires Written(tab, blocks, ps) && ps != []
    ensures Written(tab, blocks[1..], ps[1..])
  {
    hide FormOk;
  }

  lemma WrittenFlags(tab: CodeTables, blocks: seq<Block>, ps: seq<Piece>)
    requires Written(tab, blocks, ps)
    ensures Writable(tab, ps) && |ps| == |blocks| && forall i :: 0 <= i < |ps| ==> ps[i].last == blocks[i].last
  {
    hide FormOk;
  }

  /** What the blocks of a compressor, as they were written, mean. */
  ghost predicate Says(tab: CodeTables, far: int, hist: seq<Byte>, preset: nat, blocks: seq<Block>, ps: seq<Piece>) {
    && preset <= |hist| && Meaning(hist[..preset], blocks) == hist && StoredAgrees(hist[..preset], blocks)
    && AllReaching(far, hist[..preset], blocks) && Written(tab, blocks, ps) && LastAtEnd(ps)
  }

  /** A stream with these blocks decodes to what was compressed: the decoder is done behind the
      last one, and otherwise expects another block. */
  lemma StreamDecodes(env: Decoder.Env, s: Decoder.State, tab: CodeTables, far: int, init: seq<Byte>, hist: seq<Byte>,
                      preset: nat,
                      blocks: seq<Block>, ps: seq<Piece>)
    requires Decoder.StateOk(env, s) && s.mode.BlockType? && Says(tab, far, hist, preset, blocks, ps) && far <= env.w
    requires s.text == init + hist[..preset]
    requires BitsAt(env.bits, s.pos, PiecesBits(tab, s.pos, ps))
    ensures var last := if ps == [] then s.last else ps[|ps| - 1].last;
            var mode := if ps == [] then Decoder.BlockType else Decoder.NextBlock(last);
            Reaches(env, s, Decoder.State(mode, last, s.pos + |PiecesBits(tab, s.pos, ps)|, init + hist))
  {
    hide Decoder.StateOk, Reaches, PiecesOk, PiecesBits, PiecesText, StoredAgrees, AllReaching, Written, Meaning;
    WrittenFlags(tab, blocks, ps);
    PiecesMean(tab, far, env.w, init, hist[..preset], blocks, ps);
    RunPieces(env, s, tab, ps);
  }

  /** A decompressor on a stream that the decoder reads as init + hist up to the state `end`: whatever
      calls it has seen, what it has put out is a beginning of the text, unless it has gone on
      behind `end`. */
  lemma OutputIsPrefix(i: Inflating.Inflater, end: Decoder.State, init: seq<Byte>, hist: seq<Byte>, preset: nat)
    requires i.Valid() && preset <= |hist| && i.base == |init| + preset && end.text == init + hist
    requires Reaches(i.TheEnv(), i.start, end) && Decoder.Step(i.TheEnv(), end) == end
    ensures i.output <= hist[preset..] && i.now.text <= init + hist
  {
    hide Decoder.StateOk, Decoder.Run, Decoder.Step, BytesBits, Inflating.Inflater.Reading, Inflating.Inflater.InWindow,
         Inflating.Shows;
    var env := i.TheEnv();
    var n: nat :| Decoder.Run(env, i.start, n) == end;
    if i.steps <= n {
      Decoder.RunExtends(env, i.start, i.steps, n);
    } else {
      Decoder.RunPlus(env, i.start, n, i.steps - n);
      Decoder.RunStays(env, end, i.steps - n);
    }
    Tail(init, hist, preset, i.now.text, i.base, |i.output|);
  }

  lemma Tail(init: seq<Byte>, hist: seq<Byte>, preset: nat, text: seq<Byte>, base: nat, n: nat)
    requires text <= init + hist && base == |init| + preset && base + n <= |text|
    ensures text[base..base + n] <= hist[preset..]
    ensures text == init + hist && preset <= |hist| ==> text[base..] == hist[preset..]
  {
    var t := init + hist;
    assert t[base..base + n] == hist[preset..preset + n];
    if text == t && preset <= |hist| { assert t[base..] == hist[preset..]; }
  }

  /** Where a decompressor is that has taken all of its stream: with 15 bits behind `end` it has come
      at least that far. */
  lemma NotStuck(i: Inflating.Inflater, end: Decoder.State)
    requires i.Valid() && Reaches(i.TheEnv(), i.start, end) && end.pos + MAX_BITS <= 8 * |i.stream|
    requires i.endIn == |i.stream| && i.Starved()
    ensures end.text <= i.now.text
  {
    hide Decoder.StateOk, Decoder.Run, Decoder.Step, BytesBits, Inflating.Inflater.Reading, Inflating.Inflater.InWindow,
         Inflating.Shows;
    var env := i.TheEnv();
    var n: nat :| Decoder.Run(env, i.start, n) == end;
    if i.steps <= n {
      Decoder.RunExtends(env, i.start, i.steps, n);
      Decoder.RunPlus(env, i.start, i.steps, n - i.steps);
      SizeWaits(env, i.now);
      Decoder.RunStays(env, i.now, n - i.steps);
    } else {
      Decoder.RunExtends(env, i.start, n, i.steps);
    }
  }

  /** The length of a stored block is not read before all of its bits are there. */
  lemma SizeWaits(env: Decoder.Env, s: Decoder.State)
    requires Decoder.StateOk(env, s) && s.mode.StoredSize? && s.pos + 32 > |env.bits|
    ensures Decoder.Step(env, s) == s
  {
  }

  /** The decoder is done where the blocks end, and what is left in the bit buffer is less than a
      byte. */
  lemma DoneAtEnd(i: Inflating.Inflater, end: Decoder.State)
    requires i.Valid() && Reaches(i.TheEnv(), i.start, end) && end.mode.Finished? && i.mode.DONE?
    ensures i.now == end && end.pos <= 8 * i.nextIn < end.pos + 8 && i.read == i.write
  {
    hide Decoder.StateOk, Decoder.Run, Decoder.Step, BytesBits, Inflating.Inflater.Reading, Inflating.Inflater.InWindow,
         Inflating.CodesShow;
    var env := i.TheEnv();
    var n: nat :| Decoder.Run(env, i.start, n) == end;
    Done(env, i.now);
    Done(env, end);
    if i.steps <= n {
      Decoder.RunPlus(env, i.start, i.steps, n - i.steps);
      Decoder.RunStays(env, i.now, n - i.steps);
    } else {
      Decoder.RunPlus(env, i.start, n, i.steps - n);
      Decoder.RunStays(env, end, i.steps - n);
    }
  }

  lemma Done(env: Decoder.Env, s: Decoder.State)
    requires Decoder.StateOk(env, s) && (s.mode.Finished? || s.mode.Invalid?)
    ensures Decoder.Step(env, s) == s
  {
  }

  /** On a stream that ends well, no state is invalid. */
  lemma NeverInvalid(i: Inflating.Inflater, end: Decoder.State)
    requires i.Valid() && Reaches(i.TheEnv(), i.start, end) && end.mode.Finished?
    ensures !i.now.mode.Invalid?
  {
    hide Decoder.StateOk, Decoder.Run, Decoder.Step, BytesBits, Inflating.Inflater.Reading, Inflating.Inflater.InWindow,
         Inflating.Shows;
    var env := i.TheEnv();
    var n: nat :| Decoder.Run(env, i.start, n) == end;
    Done(env, end);
    if i.now.mode.Invalid? { Done(env, i.now); }
    if i.steps <= n {
      Decoder.RunPlus(env, i.start, i.steps, n - i.steps);
      if i.now.mode.Invalid? { Decoder.RunStays(env, i.now, n - i.steps); }
    } else {
      Decoder.RunPlus(env, i.start, n, i.steps - n);
      Decoder.RunStays(env, end, i.steps - n);
    }
  }

  /** A stream with its parts. */
  ghost predicate StreamOf(s: seq<Byte>, tab: CodeTables, head: seq<Byte>, ps: seq<Piece>, pad: nat, tail: seq<Byte>) {
    Writable(tab, ps) && pad < 8 && BytesBits(s) == Content(tab, head, ps, pad, tail)
  }

  lemma SameBits(x: Byte, y: Byte)
    requires BitsOf(x, 8) == BitsOf(y, 8)
    ensures x == y
  {
    hide BitsOf, Low;
    LeOfBits(x, 8); LeOfBits(y, 8);
    Pow2Values();
    LowBelow(x, 8); LowBelow(y, 8);
  }

  /** Bytes are known by their bits. */
  lemma BytesWithin(s: seq<Byte>, at: nat, b: seq<Byte>)
    requires at + |b| <= |s| && BytesBits(s)[8 * at..8 * (at + |b|)] == BytesBits(b)
    ensures s[at..at + |b|] == b
  {
    hide BytesBits, BitsOf;
    forall i | 0 <= i < |b| ensures s[at + i] == b[i] { ByteWithin(s, at, b, i); }
  }

  lemma ByteWithin(s: seq<Byte>, at: nat, b: seq<Byte>, i: nat)
    requires at + |b| <= |s| && BytesBits(s)[8 * at..8 * (at + |b|)] == BytesBits(b) && i < |b|
    ensures s[at + i] == b[i]
  {
    hide BytesBits, BitsOf;
    BitBuffer.ByteAt(s, at + i);
    BitBuffer.ByteAt(b, i);
    SliceOfSlice(BytesBits(s), 8 * at, 8 * (at + |b|), 8 * i, 8 * i + 8);
    SameBits(s[at + i], b[i]);
  }

  lemma SliceOfSlice(s: Bits, a: nat, b: nat, x: nat, y: nat)
    requires a <= b <= |s| && x <= y <= b - a
    ensures s[a..b][x..y] == s[a + x..a + y]
  {
    var inner, outer := s[a..b][x..y], s[a + x..a + y];
    assert |inner| == |outer|;
    assert forall k :: 0 <= k < |inner| ==> inner[k] == outer[k];
  }

  /** Where the parts of a stream are, whatever follows it. */
  lemma Placed(s: seq<Byte>, more: seq<Byte>, tab: CodeTables, head: seq<Byte>, ps: seq<Piece>, pad: nat,
               tail: seq<Byte>)
    requires StreamOf(s, tab, head, ps, pad, tail)
    ensures head <= s && |head| + |tail| <= |s| && s[|s| - |tail|..] == tail
    ensures BitsAt(BytesBits(s + more), 8 * |head|, PiecesBits(tab, 8 * |head|, ps))
    ensures 8 * |head| + |PiecesBits(tab, 8 * |head|, ps)| + pad == 8 * (|s| - |tail|)
  {
    hide BytesBits, BitsOf, PiecesBits, Writable;
    var h, p, z, q := BytesBits(head), PiecesBits(tab, 8 * |head|, ps), BitsOf(0, pad), BytesBits(tail);
    var all := BytesBits(s);
    assert all == h + p + (z + q);
    assert all[0..8 * |head|] == h;
    BytesWithin(s, 0, head);
    var at := |s| - |tail|;
    assert all[8 * at..8 * (at + |tail|)] == q;
    BytesWithin(s, at, tail);
    BytesConcat(s, more);
    assert (all + BytesBits(more))[8 * |head|..8 * |head| + |p|] == p;
  }

  /** What is known of a stream that the compressor has ended. */
  lemma EndedSays(c: Deflate.Compressor)
    requires c.Ok() && c.Ended()
    ensures StreamOf(c.out.w.nextOut, c.out.tab, c.out.head, c.out.ps, c.out.pad, c.out.tail)
    ensures Says(c.out.tab, c.MaxDist(), c.hist, c.preset, c.output.blocks, c.out.ps)
    ensures c.out.ps != [] && c.out.ps[|c.out.ps| - 1].last
    ensures 9 <= c.wBits <= 15 && c.wSize == Pow2(c.wBits) && 512 <= c.wSize && c.preset <= |c.hist| &&
            (c.noheader == 1 || c.noheader == -1)
    ensures c.out.head == if c.noheader == 1 then []
            else Deflate.HeaderBytes(c.wBits, c.out.level, c.preset > 0, c.dictCheck)
    ensures c.out.tail == if c.noheader == -1 then Deflate.WordBytes(Checksum(c.hist[c.preset..])) else []
  {
    hide Deflate.Compressor.LevelOk, Checksum, Meaning, StoredAgrees, AllReaching, BytesBits, Content, CodeTables.Ok,
         TreeFor, Written, Deflate.HeaderBytes, Deflate.WordBytes;
    Deflate.WindowSizes(c.wBits);
    WrittenFlags(c.out.tab, c.output.blocks, c.out.ps);
    NoBits(c.out.w.biBuf);
    NothingSent(BytesBits(c.out.w.Bytes()));
  }

  /** The decompressor d reads what the compressor c has written, with more bytes behind it; it has
      the same preset dictionary, if there is one, and a window that is not smaller. */
  ghost predicate Reads(c: Deflate.Compressor, d: Decompression.Decompressor, more: seq<Byte>)
    reads c, c.window, c.head, c.prev, c.out, c.out.w, d, d.blocks, d.blocks.window
  {
    && c.Ok() && c.Ended() && d.Valid() && d.blocks.stream == c.out.w.nextOut + more
    && d.nowrap == (c.noheader == 1) && c.wBits <= d.wbits && c.MaxDist() >= 0
  }

  /** It has come to the blocks. */
  ghost predicate Inside(c: Deflate.Compressor, d: Decompression.Decompressor)
    requires c.Ok() && c.MaxDist() >= 0
    reads c, c.window, c.head, c.prev, c.out, c.out.w, d, d.blocks, d.blocks.window
  {
    d.Begun() && d.blocks.Valid() && c.hist[..c.preset] == c.Kept(d.dictionary)
  }

  /** The header is one that inflate accepts. */
  lemma HeaderRead(s: seq<Byte>, wbits: nat, wBits: nat, level: nat, preset: bool, check: nat)
    requires 9 <= wBits <= 15 && wBits <= wbits && Deflate.HeaderBytes(wBits, level, preset, check) <= s
    ensures Decompression.HeaderOk(s, wbits) && (Decompression.HasDict(s) <==> preset)
    ensures preset ==> |s| >= 6 && Decompression.Partial(s, 2, 4) == check % 0x1_0000_0000
  {
    hide Deflate.Header, Deflate.WordBytes, Decompression.Partial;
    Deflate.HeaderIs(wBits, level, preset);
    var h, head := Deflate.Header(wBits, level, preset), Deflate.HeaderBytes(wBits, level, preset, check);
    HighLow(h);
    assert s[0] == head[0] && s[1] == head[1];
    if preset {
      assert s[2..2 + 4] == head[2..6] == Deflate.WordBytes(check);
      WordRead(s, 2, check);
    }
  }

  lemma HeaderAccepted(c: Deflate.Compressor, d: Decompression.Decompressor, more: seq<Byte>)
    requires Reads(c, d, more) && !d.nowrap
    ensures Decompression.HeaderOk(d.blocks.stream, d.wbits) &&
            (Decompression.HasDict(d.blocks.stream) <==> c.preset > 0)
    ensures |c.out.head| == (if c.preset > 0 then 6 else 2) && |c.out.head| + 4 <= |c.out.w.nextOut|
    ensures c.preset > 0 ==> Decompression.Partial(d.blocks.stream, 2, 4) == c.dictCheck % 0x1_0000_0000
  {
    hide Deflate.Compressor.Ok, Deflate.Compressor.Ended, Decompression.Decompressor.Valid, Checksum, Deflate.Header,
         Deflate.WordBytes, Decompression.HeaderOk, Decompression.HasDict, Decompression.Partial, StreamOf, Says,
         PiecesBits;
    EndedSays(c);
    var s := c.out.w.nextOut;
    Placed(s, more, c.out.tab, c.out.head, c.out.ps, c.out.pad, c.out.tail);
    assert c.out.head <= s + more;
    HeaderRead(s + more, d.wbits, c.wBits, c.out.level, c.preset > 0, c.dictCheck);
  }

  lemma HighLow(h: nat)
    requires h < 0x10000
    ensures h / 0x100 % 0x100 == h / 0x100 && h == 0x100 * (h / 0x100) + h % 0x100 && h / 0x100 / 16 == h / 0x1000
    ensures h % 0x100 / 0x20 % 2 == h / 0x20 % 2
  {
    assert h / 0x20 == 8 * (h / 0x100) + h % 0x100 / 0x20;
  }

  /** A word in the stream is read as itself. */
  lemma WordRead(s: seq<Byte>, at: nat, x: nat)
    requires at + 4 <= |s| && s[at..at + 4] == Deflate.WordBytes(x)
    ensures Decompression.Partial(s, at, 4) == x % 0x1_0000_0000
  {
    var w := Deflate.WordBytes(x);
    assert s[at] == w[0] && s[at + 1] == w[1] && s[at + 2] == w[2] && s[at + 3] == w[3];
    WordSum(x);
  }

  lemma WordSum(x: nat)
    ensures x / 0x1000000 % 0x100 * 0x1000000 + x / 0x10000 % 0x100 * 0x10000 + x / 0x100 % 0x100 * 0x100 + x % 0x100 ==
            x % 0x1_0000_0000
  {
    var a, b, c := x / 0x100, x / 0x10000, x / 0x1000000;
    assert a == 0x100 * b + a % 0x100;
    assert b == 0x100 * c + b % 0x100;
    assert x == 0x100 * a + x % 0x100;
    assert x == 0x1_0000_0000 * (c / 0x100) +
           (c % 0x100 * 0x1000000 + b % 0x100 * 0x10000 + a % 0x100 * 0x100 + x % 0x100);
  }

  /** The text before the blocks ends in the same dictionary, as far as the compressor keeps it. */
  lemma SameBefore(init: seq<Byte>, dict: seq<Byte>, w: nat, kept: seq<Byte>, far: int) returns (before: seq<Byte>)
    requires 0 <= far && far < w
    requires kept == if |dict| < MIN_MATCH then [] else if |dict| > far then dict[|dict| - far..] else dict
    ensures init + Decompression.Tail(dict, w) == before + kept
  {
    var all := init + Decompression.Tail(dict, w);
    before := all[..|all| - |kept|];
    assert all[|all| - |kept|..] == kept;
  }

  /** The decompressor starts the blocks where they are, with the text that the compressor had. */
  lemma SameStart(c: Deflate.Compressor, d: Decompression.Decompressor, more: seq<Byte>) returns (before: seq<Byte>)
    requires Reads(c, d, more) && Inside(c, d)
    ensures d.blocks.start == Decoder.State(Decoder.BlockType, false, 8 * |c.out.head|, before + c.hist[..c.preset])
    ensures d.blocks.base == |before| + c.preset && c.MaxDist() < d.blocks.w && c.preset <= |c.hist|
  {
    hide Deflate.Compressor.Ok, Deflate.Compressor.Ended, Inflating.Inflater.Valid, Checksum, Deflate.HeaderBytes,
         Deflate.WordBytes, Says, StreamOf, Decompression.HeaderOk, Decompression.HasDict, Decompression.Partial, Pow2;
    EndedSays(c);
    if !d.nowrap { HeaderAccepted(c, d, more); }
    Pow2Mono(c.wBits, d.wbits);
    before := SameBefore(d.init, d.dictionary, d.blocks.w, c.Kept(d.dictionary), c.MaxDist());
  }

  /** The state of the decoder behind the last block. */
  ghost function EndOf(c: Deflate.Compressor, before: seq<Byte>): Decoder.State
    requires Writable(c.out.tab, c.out.ps)
    reads c`hist, c.out`head, c.out`ps
  {
    Decoder.State(Decoder.Finished, true, 8 * |c.out.head| + |PiecesBits(c.out.tab, 8 * |c.out.head|, c.out.ps)|,
      before + c.hist)
  }

  /** The decoder gets there. */
  lemma ReachesEnd(c: Deflate.Compressor, d: Decompression.Decompressor, more: seq<Byte>, before: seq<Byte>)
    requires Reads(c, d, more) && Inside(c, d)
    requires d.blocks.start == Decoder.State(Decoder.BlockType, false, 8 * |c.out.head|, before + c.hist[..c.preset])
    requires c.MaxDist() < d.blocks.w && c.preset <= |c.hist|
    ensures Writable(c.out.tab, c.out.ps) && Decoder.StateOk(d.blocks.TheEnv(), d.blocks.start)
    ensures Reaches(d.blocks.TheEnv(), d.blocks.start, EndOf(c, before))
    ensures EndOf(c, before).pos <= 8 * (|c.out.w.nextOut| - |c.out.tail|) < EndOf(c, before).pos + 8
    ensures |c.out.tail| <= |c.out.w.nextOut| && c.out.w.nextOut[|c.out.w.nextOut| - |c.out.tail|..] == c.out.tail
  {
    hide Deflate.Compressor.Ok, Deflate.Compressor.Ended, Inflating.Inflater.Core, Inflating.Inflater.In, Checksum,
         Says, Reaches, Decoder.StateOk, Deflate.HeaderBytes, Deflate.WordBytes, Decompression.Decompressor.Valid,
         Decompression.Decompressor.Begun, BytesBits, PiecesBits, Writable, Content;
    EndedSays(c);
    StartInOrder(d.blocks);
    Placed(c.out.w.nextOut, more, c.out.tab, c.out.head, c.out.ps, c.out.pad, c.out.tail);
    StreamDecodes(d.blocks.TheEnv(), d.blocks.start, c.out.tab, c.MaxDist(), before, c.hist, c.preset, c.output.blocks,
      c.out.ps);
  }

  lemma StartInOrder(i: Inflating.Inflater)
    requires i.Valid()
    ensures Decoder.StateOk(i.TheEnv(), i.start)
  {
    hide Decoder.StateOk, Decoder.Run, Inflating.Shows, Inflating.Inflater.Reading, Inflating.Inflater.InWindow,
         BytesBits;
  }

  /** The round trip. Whatever calls have led to the stream of the compressor, and whatever calls the
      decompressor has seen: what it has put out is a beginning of what the compressor was given,
      and once it has read the blocks, all of it. */
  lemma RestoredText(c: Deflate.Compressor, d: Decompression.Decompressor, more: seq<Byte>)
    requires Reads(c, d, more) && Inside(c, d)
    ensures c.preset <= |c.hist| && d.blocks.output <= c.hist[c.preset..]
    ensures d.blocks.mode.DONE? ==> d.blocks.output == c.hist[c.preset..]
  {
    hide Deflate.Compressor.Ok, Deflate.Compressor.Ended, Inflating.Inflater.Core, Inflating.Inflater.In, Checksum,
         Reaches, Decoder.StateOk, Decoder.Step, Decompression.Decompressor.Valid, Decompression.Decompressor.Begun,
         BytesBits, PiecesBits, Writable;
    var before := SameStart(c, d, more);
    ReachesEnd(c, d, more, before);
    var i, end := d.blocks, EndOf(c, before);
    EndInOrder(i, end);
    Done(i.TheEnv(), end);
    OutputIsPrefix(i, end, before, c.hist, c.preset);
    if i.mode.DONE? {
      DoneAtEnd(i, end);
      Delivered(i);
      Tail(before, c.hist, c.preset, i.now.text, i.base, 0);
    }
  }

  lemma EndInOrder(i: Inflating.Inflater, end: Decoder.State)
    requires Decoder.StateOk(i.TheEnv(), i.start) && Reaches(i.TheEnv(), i.start, end)
    ensures Decoder.StateOk(i.TheEnv(), end)
  {
    hide Decoder.StateOk, Decoder.Run;
    var n: nat :| Decoder.Run(i.TheEnv(), i.start, n) == end;
  }

  lemma Delivered(i: Inflating.Inflater)
    requires i.Valid() && i.read == i.write
    ensures i.base <= |i.now.text| && i.output == i.now.text[i.base..]
  {
    hide Inflating.Inflater.Core, Inflating.Inflater.In;
    i.AllDelivered();
  }

  /** inflate never refuses such a stream. */
  lemma NotRefused(c: Deflate.Compressor, d: Decompression.Decompressor, more: seq<Byte>)
    requires Reads(c, d, more) && (d.Begun() && d.blocks.Valid() ==> Inside(c, d))
    ensures !d.Faulty()
  {
    hide Deflate.Compressor.Ok, Deflate.Compressor.Ended, Inflating.Inflater.Core, Inflating.Inflater.In, Checksum,
         Reaches, Decoder.StateOk, Decoder.Step, Decompression.Decompressor.Valid, Decompression.Decompressor.Begun,
         BytesBits, PiecesBits, Writable, Decompression.HeaderOk, Decompression.Partial, Deflate.HeaderBytes,
         Deflate.WordBytes, Says, StreamOf;
    if !d.nowrap { HeaderAccepted(c, d, more); }
    if d.Begun() && d.blocks.Valid() {
      var before := SameStart(c, d, more);
      ReachesEnd(c, d, more, before);
      NeverInvalid(d.blocks, EndOf(c, before));
      if d.blocks.mode.DONE? && !d.nowrap { ChecksumAgrees(c, d, more, before); }
    }
  }

  /** The checksum behind the blocks is that of the output. */
  lemma ChecksumAgrees(c: Deflate.Compressor, d: Decompression.Decompressor, more: seq<Byte>, before: seq<Byte>)
    requires Reads(c, d, more) && Inside(c, d) && d.blocks.mode.DONE? && !d.nowrap
    requires Writable(c.out.tab, c.out.ps) && Decoder.StateOk(d.blocks.TheEnv(), d.blocks.start)
    requires Reaches(d.blocks.TheEnv(), d.blocks.start, EndOf(c, before))
    requires EndOf(c, before).pos <= 8 * (|c.out.w.nextOut| - |c.out.tail|) < EndOf(c, before).pos + 8
    requires |c.out.tail| <= |c.out.w.nextOut| && c.out.w.nextOut[|c.out.w.nextOut| - |c.out.tail|..] == c.out.tail
    ensures d.blocks.nextIn + 4 == |c.out.w.nextOut| &&
            Decompression.Partial(d.blocks.stream, d.blocks.nextIn, 4) == d.blocks.check
  {
    hide Deflate.Compressor.Ok, Deflate.Compressor.Ended, Inflating.Inflater.Core, Inflating.Inflater.In, Checksum,
         Reaches, Decoder.StateOk, Decompression.Decompressor.Valid, Decompression.Decompressor.Begun, BytesBits,
         PiecesBits, Writable, Decompression.Partial, Deflate.HeaderBytes, Deflate.WordBytes, Says, StreamOf;
    EndedSays(c);
    RestoredText(c, d, more);
    DoneAtEnd(d.blocks, EndOf(c, before));
    var s, at := c.out.w.nextOut, d.blocks.nextIn;
    assert at == |s| - 4;
    assert (s + more)[at..at + 4] == s[|s| - 4..];
    WordRead(s + more, at, Checksum(c.hist[c.preset..]));
    ChecksumFits(c.hist[c.preset..]);
    CheckIs(d.blocks);
  }

  lemma CheckIs(i: Inflating.Inflater)
    requires i.Valid()
    ensures i.check == Checksum(i.output)
  {
    hide Inflating.Inflater.Reading, Inflating.Inflater.InWindow, Inflating.Inflater.OnTrack, Inflating.Inflater.In,
         Checksum;
  }

  /** With all of such a stream, the decompressor does not wait for input. */
  lemma NeverStarved(i: Inflating.Inflater, end: Decoder.State)
    requires i.Valid() && Reaches(i.TheEnv(), i.start, end) && end.mode.Finished? &&
             end.pos + MAX_BITS <= 8 * |i.stream|
    requires i.endIn == |i.stream|
    ensures !i.Starved()
  {
    hide Decoder.StateOk, Decoder.Run, Decoder.Step, BytesBits, Inflating.Inflater.Reading, Inflating.Inflater.InWindow,
         Inflating.Shows;
    var env := i.TheEnv();
    var n: nat :| Decoder.Run(env, i.start, n) == end;
    Done(env, end);
    if i.Starved() {
      if i.steps <= n {
        Decoder.RunExtends(env, i.start, i.steps, n);
        Decoder.RunPlus(env, i.start, i.steps, n - i.steps);
        SizeWaits(env, i.now);
        Decoder.RunStays(env, i.now, n - i.steps);
      } else {
        Decoder.RunPlus(env, i.start, n, i.steps - n);
        Decoder.RunStays(env, end, i.steps - n);
      }
    }
  }

  lemma OutputBehind(i: Inflating.Inflater)
    requires i.Valid() && i.read != i.write
    ensures i.base + |i.output| < |i.now.text|
  {
    hide Inflating.Inflater.Reading, Inflating.Inflater.OnTrack, Inflating.Inflater.Sent, Inflating.Inflater.In,
         CircularWindow.WindowOk;
    CircularWindow.WindowBounds(i.window[..], i.w, i.now.text, i.base, |i.output|, i.read, i.write);
  }

  /** With all of the stream and room for all of the text, inflate does not stop before the end. A
      stream without checksum needs two more bytes behind it. */
  lemma NeverWaits(c: Deflate.Compressor, d: Decompression.Decompressor, more: seq<Byte>, full: bool)
    requires Reads(c, d, more) && (d.Begun() && d.blocks.Valid() ==> Inside(c, d)) && !d.mode.DONE? && !d.mode.BAD? &&
             !d.mode.DICT0?
    requires (full ==> |d.blocks.output| >= |c.hist| - c.preset) && (d.nowrap ==> |more| >= 2)
    ensures !d.Waits(|d.blocks.stream|, full)
  {
    hide Deflate.Compressor.Ok, Deflate.Compressor.Ended, Inflating.Inflater.Core, Inflating.Inflater.In, Checksum,
         Reaches, Decoder.StateOk, Decoder.Step, Decompression.Decompressor.Begun, BytesBits, PiecesBits, Writable,
         Decompression.HeaderOk, Decompression.Partial, Deflate.HeaderBytes, Deflate.WordBytes, Says, StreamOf,
         Inflating.Inflater.Starved, Decompression.Decompressor.Waiting;
    EndedSays(c);
    if !d.nowrap { HeaderAccepted(c, d, more); }
    if d.mode.BLOCKS? || d.mode.CHECK? {
      var before := SameStart(c, d, more);
      ReachesEnd(c, d, more, before);
      var end := EndOf(c, before);
      if d.mode.CHECK? {
        ChecksumAgrees(c, d, more, before);
      } else if d.blocks.read != d.blocks.write {
        EndInOrder(d.blocks, end);
        Done(d.blocks.TheEnv(), end);
        OutputIsPrefix(d.blocks, end, before, c.hist, c.preset);
        OutputBehind(d.blocks);
      } else if d.blocks.endIn == |d.blocks.stream| {
        NeverStarved(d.blocks, end);
      }
    }
  }

  /** What is known of a stream behind a completed sync or full flush. */
  lemma FlushedSays(c: Deflate.Compressor, flush: Deflate.Flush)
    requires c.Ok() && c.status == Deflate.BUSY_STATE && c.Flushed(flush) && flush != Deflate.PartialFlush
    ensures StreamOf(c.out.w.nextOut, c.out.tab, c.out.head, c.out.ps, 0, [])
    ensures Says(c.out.tab, c.MaxDist(), c.hist, c.preset, c.output.blocks, c.out.ps)
    ensures c.out.ps != [] && c.out.ps[|c.out.ps| - 1] == Piece(Stored([]), [], false)
  {
    hide Deflate.Compressor.LevelOk, Checksum, Meaning, StoredAgrees, AllReaching, BytesBits, Content, CodeTables.Ok,
         TreeFor, Written, Deflate.HeaderBytes;
    WrittenFlags(c.out.tab, c.output.blocks, c.out.ps);
    NoBits(c.out.w.biBuf);
    NothingSent(BytesBits(c.out.w.Bytes()));
  }

  /** An empty block at the end says nothing. */
  lemma WithoutMarker(tab: CodeTables, far: int, hist: seq<Byte>, preset: nat, blocks: seq<Block>, ps: seq<Piece>)
    requires Says(tab, far, hist, preset, blocks, ps) && ps != [] && ps[|ps| - 1].ts == []
    ensures |ps| == |blocks| && Says(tab, far, hist, preset, blocks[..|blocks| - 1], ps[..|ps| - 1])
  {
    hide FormOk;
  }

  lemma StoredSize(tab: CodeTables, pos: nat, p: Piece)
    requires FormOk(tab, p.form, p.ts) && p.form.Stored?
    ensures |FormBits(tab, p.form, pos, p.ts, p.last)| >= 35
  {
    hide BytesBits, BitsOf, TypeBits;
  }

  /** Without the marker at its end the stream still has at least 35 bits to come. */
  lemma MarkerBits(tab: CodeTables, pos: nat, ps: seq<Piece>)
    requires Writable(tab, ps) && ps != [] && ps[|ps| - 1].form.Stored?
    ensures Writable(tab, ps[..|ps| - 1])
    ensures var front := PiecesBits(tab, pos, ps[..|ps| - 1]);
            front <= PiecesBits(tab, pos, ps) && |front| + 35 <= |PiecesBits(tab, pos, ps)|
  {
    hide PiecesBits, FormOk, FormBits;
    var n := |ps| - 1;
    assert ps == ps[..n] + [ps[n]];
    PiecesBitsMore(tab, pos, ps[..n], ps[n]);
    StoredSize(tab, pos + |PiecesBits(tab, pos, ps[..n])|, ps[n]);
  }

  /** A completed sync or full flush lets the decompressor put out everything so far: if it has taken
      all of the stream and is not out of room, it has put out all that the compressor was given. */
  lemma FlushDelivers(c: Deflate.Compressor, flush: Deflate.Flush, i: Inflating.Inflater, before: seq<Byte>)
    requires c.Ok() && c.status == Deflate.BUSY_STATE && c.Flushed(flush) && flush != Deflate.PartialFlush
    requires i.Valid() && i.stream == c.out.w.nextOut && 0 <= c.MaxDist() <= i.w && c.preset <= |c.hist| &&
             i.base == |before| + c.preset
    requires i.start == Decoder.State(Decoder.BlockType, false, 8 * |c.out.head|, before + c.hist[..c.preset])
    requires i.endIn == |i.stream| && i.Starved() && i.read == i.write
    ensures i.output == c.hist[c.preset..]
  {
    hide Deflate.Compressor.Ok, Deflate.Compressor.Flushed, Inflating.Inflater.Core, Inflating.Inflater.In, Reaches,
         Decoder.StateOk, Inflating.Inflater.Starved, BytesBits, PiecesBits, Writable, Content, Says;
    FlushedSays(c, flush);
    var tab, pos, ps, blocks := c.out.tab, 8 * |c.out.head|, c.out.ps, c.output.blocks;
    Placed(i.stream, [], tab, c.out.head, ps, 0, []);
    assert i.stream + [] == i.stream;
    StartInOrder(i);
    SaysParts(tab, c.MaxDist(), c.hist, c.preset, blocks, ps);
    StreamDecodes(i.TheEnv(), i.start, tab, c.MaxDist(), before, c.hist, c.preset, blocks, ps);
    var end := Decoder.State(Decoder.BlockType, false, pos + |PiecesBits(tab, pos, ps)|, before + c.hist);
    EndInOrder(i, end);
    AtTheEnd(i.TheEnv(), end);
    OutputIsPrefix(i, end, before, c.hist, c.preset);
    FrontReached(c, i, before);
    Delivered(i);
    Tail(before, c.hist, c.preset, i.now.text, i.base, 0);
  }

  lemma SaysParts(tab: CodeTables, far: int, hist: seq<Byte>, preset: nat, blocks: seq<Block>, ps: seq<Piece>)
    requires Says(tab, far, hist, preset, blocks, ps)
    ensures Written(tab, blocks, ps) && Writable(tab, ps) && |ps| == |blocks| && LastAtEnd(ps)
  {
    hide FormOk, Meaning, StoredAgrees, AllReaching;
  }

  lemma AtTheEnd(env: Decoder.Env, s: Decoder.State)
    requires Decoder.StateOk(env, s) && s.mode.BlockType? && s.pos == |env.bits|
    ensures Decoder.Step(env, s) == s
  {
  }

  /** The marker gives enough bits to come to its beginning. */
  lemma FrontReached(c: Deflate.Compressor, i: Inflating.Inflater, before: seq<Byte>)
    requires Says(c.out.tab, c.MaxDist(), c.hist, c.preset, c.output.blocks, c.out.ps) && c.MaxDist() <= i.w
    requires c.out.ps != [] && c.out.ps[|c.out.ps| - 1] == Piece(Stored([]), [], false)
    requires i.Valid() &&
             i.start == Decoder.State(Decoder.BlockType, false, 8 * |c.out.head|, before + c.hist[..c.preset])
    requires c.preset <= |c.hist| && StreamOf(i.stream, c.out.tab, c.out.head, c.out.ps, 0, [])
    requires i.endIn == |i.stream| && i.Starved()
    ensures before + c.hist <= i.now.text
  {
    hide Inflating.Inflater.Core, Inflating.Inflater.In, Reaches, Decoder.StateOk, Inflating.Inflater.Starved,
         BytesBits, PiecesBits, Writable, Content, Says;
    var tab, pos, ps, blocks := c.out.tab, 8 * |c.out.head|, c.out.ps, c.output.blocks;
    var n := |blocks| - 1;
    SaysParts(tab, c.MaxDist(), c.hist, c.preset, blocks, ps);
    WithoutMarker(tab, c.MaxDist(), c.hist, c.preset, blocks, ps);
    MarkerBits(tab, pos, ps);
    Placed(i.stream, [], tab, c.out.head, ps, 0, []);
    assert i.stream + [] == i.stream;
    StartInOrder(i);
    var front := PiecesBits(tab, pos, ps[..n]);
    assert BitsAt(i.TheEnv().bits, pos, front);
    StreamDecodes(i.TheEnv(), i.start, tab, c.MaxDist(), before, c.hist, c.preset, blocks[..n], ps[..n]);
    var end := Decoder.State(Decoder.BlockType, false, pos + |front|, before + c.hist);
    NotStuck(i, end);
  }

  lemma EndedParts(c: Deflate.Compressor)
    requires c.Ok() && c.Ended()
    ensures c.out.Wrote(c.output.blocks) && c.AllSaid() && c.LastOnly() && c.out.mark == c.flushed.mark
    ensures c.flushed.mark > 0 ==> c.flushed.known == 0
  {
    hide Deflate.Compressor.LevelOk, Deflate.Compressor.AllSaid, BlockWriter.Wrote, Deflate.Compressor.LastOnly,
         Deflate.Compressor.Summed, Deflate.Compressor.Sized, Deflate.Compressor.Heading, BitWriter.Holding, Checksum,
         Deflate.WordBytes;
  }

  /** What is known of an ended stream behind its last full flush. */
  lemma EndedRestarts(c: Deflate.Compressor)
    requires c.Ok() && c.Ended() && c.flushed.mark > 0
    ensures c.flushed.at <= |c.hist| && c.flushed.mark <= |c.output.blocks| == |c.out.ps|
    ensures Says(c.out.tab, c.MaxDist(), c.hist[c.flushed.at..], 0, c.output.blocks[c.flushed.mark..],
                 c.out.ps[c.flushed.mark..])
    ensures Writable(c.out.tab, c.out.ps[..c.flushed.mark])
    ensures var n := 8 * |c.out.head|;
            n + |PiecesBits(c.out.tab, n, c.out.ps[..c.flushed.mark])| == 8 * c.out.offset
    ensures c.flushed.mark < |c.out.ps|
  {
    hide Deflate.Compressor.Ok, Deflate.Compressor.Ended, Checksum, Meaning, StoredAgrees, AllReaching, Content,
         CodeTables.Ok, TreeFor, Parsing.Parsed, Reaching, Expand, FormOk, PiecesBits, BitWriter.Sent;
    EndedParts(c);
    var f, n := c.flushed, |c.hist|;
    assert c.hist[f.at..][..n - f.at] == c.hist[f.at..];
    var blocks, ps := c.output.blocks[f.mark..], c.out.ps[f.mark..];
    EndedSays(c);
  }

  /** Behind a full flush decompression can be restarted: a decompressor that starts at the offset of
      the last one, whatever is in its window, puts out the text that was given after it. */
  lemma Restart(c: Deflate.Compressor, i: Inflating.Inflater, init: seq<Byte>, more: seq<Byte>)
    requires c.Ok() && c.Ended() && c.flushed.mark > 0 && 0 <= c.MaxDist() <= i.w
    requires i.Valid() && i.stream == c.out.w.nextOut + more && i.base == |init|
    requires i.start == Decoder.State(Decoder.BlockType, false, 8 * c.out.offset, init)
    ensures c.flushed.at <= |c.hist| && i.output <= c.hist[c.flushed.at..] && !i.now.mode.Invalid?
    ensures i.mode.DONE? ==> i.output == c.hist[c.flushed.at..]
  {
    hide Deflate.Compressor.Ok, Deflate.Compressor.Ended, Inflating.Inflater.Core, Inflating.Inflater.In, Checksum,
         Reaches, Decoder.StateOk, Decoder.Step, BytesBits, PiecesBits, Writable, Content, Says, StreamOf;
    EndedSays(c);
    EndedRestarts(c);
    StartInOrder(i);
    var tab, n, ps, m := c.out.tab, 8 * |c.out.head|, c.out.ps, c.flushed.mark;
    assert Writable(tab, ps) by { SaysParts(tab, c.MaxDist(), c.hist, c.preset, c.output.blocks, ps); }
    PiecesSplit(tab, n, ps, m);
    Placed(c.out.w.nextOut, more, tab, c.out.head, ps, c.out.pad, c.out.tail);
    BitsAtSplit(i.TheEnv().bits, n, PiecesBits(tab, n, ps[..m]), PiecesBits(tab, 8 * c.out.offset, ps[m..]));
    var text := c.hist[c.flushed.at..];
    assert init + text[..0] == init;
    StreamDecodes(i.TheEnv(), i.start, tab, c.MaxDist(), init, text, 0, c.output.blocks[m..], ps[m..]);
    var end := Decoder.State(Decoder.Finished, true, 8 * c.out.offset + |PiecesBits(tab, 8 * c.out.offset, ps[m..])|,
      init + text);
    EndInOrder(i, end);
    Done(i.TheEnv(), end);
    OutputIsPrefix(i, end, init, text, 0);
    assert text[0..] == text;
    NeverInvalid(i, end);
    if i.mode.DONE? {
      DoneAtEnd(i, end);
      Delivered(i);
      Tail(init, text, 0, i.now.text, i.base, 0);
    }
  }

  /** The text so far begins with the dictionary that was kept. */
  lemma DictionaryStays(c: Deflate.Compressor, kept: seq<Byte>, input: seq<Byte>)
    requires c.Ok() && c.availIn == [] && c.hist + c.availIn == kept + input && c.preset == |kept|
    ensures c.hist[..c.preset] == kept && c.hist[c.preset..] == input
  {
    assert c.hist + [] == c.hist;
  }

  /** compress: everything in one call of deflate, if there is room. */
  method Compress(c: Deflate.Compressor, input: seq<Byte>, room: nat, ghost kept: seq<Byte>) returns (ok: bool)
    requires c.Ok() && c.hist == kept && c.preset == |kept| && c.availIn == [] && c.status == Deflate.INIT_STATE
    modifies c, c.window, c.head, c.prev, c.out, c.out.w
    ensures c.Ok() && (ok ==> c.Ended() && c.hist[..c.preset] == kept && c.hist[c.preset..] == input)
    ensures !ok ==> |c.out.w.nextOut| == |old(c.out.w.nextOut)| + room
    ensures c.preset == |kept| && c.dictCheck == old(c.dictCheck) && (c.noheader == 1 <==> old(c.noheader) == 1)
  {
    hide Deflate.Compressor.Ok, Deflate.Compressor.Ended;
    assert kept + [] + input == kept + input;
    var r := c.Call(input, Deflate.Finish, room);
    ok := r == Deflate.Z_STREAM_END;
    if ok {
      EndedTakesAll(c);
      DictionaryStays(c, kept, input);
    }
  }

  lemma EndedTakesAll(c: Deflate.Compressor)
    requires c.Ended()
    ensures c.availIn == []
  {
    hide Deflate.Compressor.Closed;
  }

  /** Without a preset dictionary in the stream there was none. */
  lemma NoDictionary(c: Deflate.Compressor, d: Decompression.Decompressor)
    requires Reads(c, d, []) && !d.nowrap && d.dictionary == [] && d.Begun() && d.blocks.Valid()
    requires |d.blocks.stream| >= 2 && Decompression.HasDict(d.blocks.stream) ==> d.blocks.start.pos == 0
    ensures Inside(c, d)
  {
    hide Deflate.Compressor.Ok, Deflate.Compressor.Ended, Inflating.Inflater.Valid, Checksum, Decompression.HeaderOk,
         Decompression.HasDict, Decompression.Partial, Decompression.Decompressor.Valid;
    HeaderAccepted(c, d, []);
  }

  /** uncompress: everything in one call of inflate, or in two if there is a dictionary. */
  method Uncompress(ghost c: Deflate.Compressor, d: Decompression.Decompressor, dict: seq<Byte>, room: nat)
    returns (output: seq<Byte>)
    requires Reads(c, d, []) && d.mode.METHOD? && d.nextIn == 0 && d.dictionary == [] && !d.nowrap &&
             d.blocks.output == []
    requires d.blocks.start.pos == 0 && c.hist[..c.preset] == c.Kept(dict) &&
             (c.preset > 0 ==> c.dictCheck == Checksum(dict))
    requires room + c.preset >= |c.hist| && d.blocks.window != c.window
    modifies d, d.blocks, d.blocks.window, d.blocks.hufts
    ensures Reads(c, d, []) && d.mode.DONE? && output == c.hist[c.preset..]
  {
    hide Deflate.Compressor.Ok, Deflate.Compressor.Ended, Inflating.Inflater.Valid, Checksum, Decompression.HeaderOk,
         Decompression.HasDict, Decompression.Partial, Decompression.Decompressor.Valid,
         Decompression.Decompressor.Begun, Decompression.Decompressor.Waits, Decompression.Decompressor.Faulty, Inside;
    var r := d.Call(|d.blocks.stream|, room, true);
    if d.Begun() && d.blocks.Valid() { NoDictionary(c, d); }
    if r == Decompression.Z_NEED_DICT {
      NeedsDictionary(c, d, dict);
      r := d.SetDictionary(dict);
      r := d.Call(|d.blocks.stream| - d.nextIn, room, true);
      if d.Begun() && d.blocks.Valid() { SameDictionary(c, d, dict); }
    }
    NotRefused(c, d, []);
    if r == Decompression.Z_OK || r == Decompression.Z_BUF_ERROR { NeverWaits(c, d, [], |d.blocks.output| == room); }
    DoneMeansBegun(d);
    RestoredText(c, d, []);
    output := d.blocks.output;
  }

  lemma SameDictionary(c: Deflate.Compressor, d: Decompression.Decompressor, dict: seq<Byte>)
    requires Reads(c, d, []) && d.Begun() && d.blocks.Valid() && d.dictionary == dict &&
             c.hist[..c.preset] == c.Kept(dict)
    ensures Inside(c, d)
  {
  }

  lemma NeedsDictionary(c: Deflate.Compressor, d: Decompression.Decompressor, dict: seq<Byte>)
    requires Reads(c, d, []) && d.mode.DICT0? && !d.nowrap && (c.preset > 0 ==> c.dictCheck == Checksum(dict))
    ensures |d.blocks.stream| >= 6 && Checksum(dict) == Decompression.Partial(d.blocks.stream, 2, 4)
  {
    hide Deflate.Compressor.Ok, Deflate.Compressor.Ended, Inflating.Inflater.Valid, Checksum, Decompression.HeaderOk,
         Decompression.HasDict, Decompression.Partial;
    HeaderAccepted(c, d, []);
    ChecksumFits(dict);
  }

  lemma DoneMeansBegun(d: Decompression.Decompressor)
    requires d.Valid() && d.mode.DONE?
    ensures d.Begun() && d.blocks.Valid() && d.blocks.mode.DONE?
  {
    hide Inflating.Inflater.Valid, Decompression.Decompressor.Begun;
  }

  lemma RoomToReach(c: Deflate.Compressor)
    requires c.Ok()
    ensures c.MaxDist() >= 0
  {
    hide Deflate.Compressor.LevelOk;
    Deflate.WindowSizes(c.wBits);
  }

  /** deflateInit2, and deflateSetDictionary if there is a dictionary. */
  method Prepare(dictionary: Option<seq<Byte>>, memLevel: nat, wBits: nat, config: Deflate.Config,
                 strategy: Deflate.Strategy, lazy: bool, level: nat)
    returns (c: Deflate.Compressor, dict: seq<Byte>)
    requires 1 <= memLevel <= 9 && 9 <= wBits <= 15 && config.maxChain >= 4 && level > 0
    ensures c.Ok() && c.MaxDist() >= 0 && c.hist == c.Kept(dict) && c.preset == |c.hist| && c.availIn == [] &&
            c.status == Deflate.INIT_STATE
    ensures c.noheader == 0 && c.wBits == wBits && (c.preset > 0 ==> c.dictCheck == Checksum(dict))
    ensures c.out.w.nextOut == []
    ensures fresh(c) && fresh(c.window) && fresh(c.head) && fresh(c.prev) && fresh(c.out) && fresh(c.out.w)
  {
    hide Deflate.Compressor.Ok, Deflate.Compressor.Blank, Checksum, BlockWriter.Unused;
    var out := BlockWriter.TrInit(level);
    c := new Deflate.Compressor(memLevel, wBits, config, strategy, lazy, false, out);
    dict := [];
    RoomToReach(c);
    if dictionary.Some? {
      dict := dictionary.value;
      c.SetDictionary(dict);
      NoHeaderYet(c);
    }
  }

  lemma NoHeaderYet(c: Deflate.Compressor)
    requires c.Ok() && c.status == Deflate.INIT_STATE
    ensures c.noheader == 0
  {
    hide Deflate.Compressor.LevelOk, BlockWriter.Unused;
  }

  /** compress and uncompress: whatever the level, the strategy, the window sizes and the preset
      dictionary, what comes out is what went in. Compression fails only by filling the room. */
  method RoundTrip(input: seq<Byte>, dictionary: Option<seq<Byte>>, room: nat, memLevel: nat, wBits: nat, wbits: nat,
                   config: Deflate.Config, strategy: Deflate.Strategy, lazy: bool, level: nat)
    returns (ok: bool, compressed: seq<Byte>, output: seq<Byte>)
    requires 1 <= memLevel <= 9 && 9 <= wBits <= wbits <= 15 && config.maxChain >= 4 && level > 0
    ensures if ok then output == input else |compressed| == room
  {
    hide Deflate.Compressor.Ok, Deflate.Compressor.Ended, Inflating.Inflater.Valid, Checksum,
         Decompression.Decompressor.Valid, Pow2;
    var c, dict := Prepare(dictionary, memLevel, wBits, config, strategy, lazy, level);
    ok := Compress(c, input, room, c.hist);
    compressed := c.out.w.nextOut;
    if !ok { return false, compressed, []; }
    Deflate.WindowSizes(wbits);
    var window := new Byte[Pow2(wbits)](i => 0);
    var d := new Decompression.Decompressor(compressed, wbits, false, window);
    assert c.out.w.nextOut + [] == c.out.w.nextOut;
    output := Uncompress(c, d, dict, |input|);
  }
}
