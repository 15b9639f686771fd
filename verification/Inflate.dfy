/** The decompressor as it runs: a bit buffer over the input, lookups in the tables of huft_build, a
    circular window, and output in whatever pieces the caller offers (zlib/infblock.c,
    zlib/infcodes.c, zlib/inffast.c, zlib/infutil.c). Every state it reaches shows one that the
    Decoder reaches on the same stream. */
module Inflating {
  import opened Arith
  import opened BitStrings
  import opened BitStream
  import opened StringHash
  import opened Chains
  import opened Canonical
  import opened Huft
  import opened Lookups
  import opened InfTrees
  import opened InflateTrees
  import opened CopyCodes
  import opened SymbolCodes
  import opened CodeReading
  import opened BlockFields
  import opened Decoder
  import opened TableLookup
  import opened BitBuffer
  import opened CircularWindow
  import opened Adler

  datatype Ret = Z_OK | Z_STREAM_END | Z_DATA_ERROR | Z_BUF_ERROR

  /** inflate_codes_mode. */
  datatype CodesMode =
    | START
    | LEN(need: nat, tree: nat)
    | LENEXT(get: nat, len: nat)
    | DIST(len: nat, need: nat, tree: nat)
    | DISTEXT(len: nat, get: nat, dist: nat)
    | COPY(len: nat, dist: nat)
    | LIT(lit: nat)
    | WASH
    | BADCODE

  /** inflate_block_mode. */
  datatype Mode =
    | TYPE
    | LENS
    | STORED(left: nat)
    | TABLE
    | BTREE(table: nat, index: nat, blens: seq<nat>)
    | DTREE(table: nat, index: nat, blens: seq<nat>, bits: BitsTree)
    | CODES(c: Codes, m: CodesMode)
    | DRY
    | DONE
    | BAD

  /** The state m of inflate_codes, with some bits of the current symbol dropped, stands for the
      state s of the decoder. */
  ghost predicate CodesShow(bits: Bits, c: Codes, m: CodesMode, s: State, dropped: nat)
    requires s.pos <= |bits|
  {
    if m.BADCODE? then s.mode.Invalid?
    else
      && s.mode.InBlock? && Matching(c, s.mode.ll, s.mode.dl)
      && (!m.LEN? && !m.DIST? ==> dropped == 0)
      && match m
         case START => s.mode.m.Symbol?
         case LEN(need, tree) =>
           && s.mode.m.Symbol?
           && OnWay(Literals(c.dbits > 0), c.hp, c.ltree, c.lbits, bits, s.pos, tree, need, dropped)
         case LENEXT(get, len) => c.dbits > 0 && s.mode.m == LengthBits(get, len)
         case DIST(len, need, tree) =>
           && c.dbits > 0 && s.mode.m == Distance(len)
           && OnWay(Distances, c.hp, c.dtree, c.dbits, bits, s.pos, tree, need, dropped)
         case DISTEXT(len, get, dist) => s.mode.m == DistanceBits(len, get, dist)
         case COPY(len, dist) => s.mode.m == Copying(len, dist)
         case LIT(lit) => s.mode.m == Literal(lit)
         case _ => s.mode.m.BlockEnd?
  }

  /** The same for a state of inflate_blocks. The decoder does not tell DRY from DONE. */
  ghost predicate Shows(bits: Bits, mode: Mode, s: State, dropped: nat)
    requires s.pos <= |bits|
  {
    match mode
    case CODES(c, m) => CodesShow(bits, c, m, s, dropped)
    case BAD => s.mode.Invalid?
    case TYPE => dropped == 0 && s.mode.BlockType?
    case LENS => dropped == 0 && s.mode.StoredSize?
    case STORED(left) => dropped == 0 && s.mode == StoredBytes(left)
    case TABLE => dropped == 0 && s.mode.TreeCounts?
    case BTREE(table, index, blens) => dropped == 0 && s.mode == BitLengths(table, index, blens)
    case DTREE(table, index, blens, tree) =>
      && dropped == 0 && s.mode.CodeLengths? && s.mode.table == table && s.mode.index == index && s.mode.blens == blens
      && BitsMatch(tree, s.mode.bl)
    case _ => dropped == 0 && s.mode.Finished?
  }

  /** Where the entry e at place `at` of the table for literals and lengths leads. */
  function LenMode(e: Entry, at: nat): CodesMode {
    if e.exop == 0 then LIT(e.base)
    else if HasBit(e.exop, 4) then LENEXT(e.exop % 16, e.base)
    else if !HasBit(e.exop, 6) then LEN(e.exop, at + e.base)
    else if HasBit(e.exop, 5) then WASH
    else BADCODE
  }

  /** Where the entry e at place `at` of the table for distances leads. */
  function DistMode(e: Entry, at: nat, len: nat): CodesMode {
    if HasBit(e.exop, 4) then DISTEXT(len, e.exop % 16, e.base)
    else if !HasBit(e.exop, 6) then DIST(len, e.exop, at + e.base)
    else BADCODE
  }

  /** The number of bits that a code length code takes, with its extra bits. */
  function CodeSize(h: Entry): nat { h.bits + if h.base < 16 then 0 else if h.base == 18 then 7 else h.base - 14 }

  /** The next bits of the stream lead to the entry h of the table of code length codes. */
  ghost predicate NextCode(tree: BitsTree, bits: Bits, at: nat, h: Entry) {
    at + tree.bb <= |bits| &&
    var i := tree.tb + Peek(bits, at, tree.bb); i < |tree.hp| && tree.hp[i] == h
  }

  /** More bits are needed for a code length than the k in the buffer. */
  ghost predicate LengthWaits(tree: BitsTree, bits: Bits, at: nat, k: nat) {
    k < tree.bb || exists h :: NextCode(tree, bits, at, h) && k < CodeSize(h)
  }

  lemma NextCodeIs(tree: BitsTree, bits: Bits, at: nat, h: Entry, k: nat)
    requires at + tree.bb <= |bits| && tree.tb + Peek(bits, at, tree.bb) < |tree.hp|
    requires h == tree.hp[tree.tb + Peek(bits, at, tree.bb)] && k >= tree.bb
    ensures NextCode(tree, bits, at, h) && (LengthWaits(tree, bits, at, k) <==> k < CodeSize(h))
  {
  }

  lemma WaitsBelow(tree: BitsTree, bits: Bits, at: nat, k: nat)
    requires k < tree.bb
    ensures LengthWaits(tree, bits, at, k)
  {
  }

  /** How far the work has come: bits taken from the stream, bytes put out, and the next byte of the
      input. */
  datatype Spot = Spot(bits: nat, bytes: nat, next: nat)

  /** There was progress between p and q. */
  predicate Moved(p: Spot, q: Spot) { p.bits < q.bits || p.bytes < q.bytes || p.next < q.next }

  /** Only a byte of which bits have been used may be handed back. */
  predicate NotBehind(p: Spot, q: Spot) {
    p.bits <= q.bits && p.bytes <= q.bytes && (p.bits == q.bits && p.bytes == q.bytes ==> p.next <= q.next)
  }

  /** The answer r of some part of a call that was Z_OK or Z_BUF_ERROR before: there was progress (and
      input for it, or output) if it has become Z_OK, and none at all if it is still Z_BUF_ERROR. */
  predicate Answers(p: Spot, q: Spot, endIn: nat, r0: Ret, r: Ret) {
    && NotBehind(p, q)
    && (r == Z_OK || r == Z_STREAM_END ==>
          r0 == Z_OK || r0 == r || (Moved(p, q) && (p.next < endIn || p.bytes < q.bytes)))
    && (r == Z_BUF_ERROR ==> r0 == Z_BUF_ERROR && !Moved(p, q))
  }

  lemma AnswersFirst(p: Spot, endIn: nat, r0: Ret)
    ensures Answers(p, p, endIn, r0, r0)
  {
  }

  lemma AnswersOn(p: Spot, q: Spot, s: Spot, endIn: nat, r0: Ret, r: Ret, r': Ret)
    requires Answers(p, q, endIn, r0, r) && Answers(q, s, endIn, r, r') && (r == Z_DATA_ERROR ==> r' == r)
    requires r0 == Z_OK || r0 == Z_BUF_ERROR
    ensures Answers(p, s, endIn, r0, r')
  {
  }

  lemma AnswersError(p: Spot, q: Spot, endIn: nat, r0: Ret, r: Ret)
    requires Answers(p, q, endIn, r0, r)
    ensures Answers(p, q, endIn, r0, Z_DATA_ERROR)
  {
  }

  lemma AnswersMore(p: Spot, q: Spot, s: Spot, endIn: nat, r0: Ret, r: Ret)
    requires Answers(p, q, endIn, r0, r) && NotBehind(q, s) && r == Z_OK
    ensures Answers(p, s, endIn, r0, r) && Answers(p, s, endIn, r0, Z_DATA_ERROR)
  {
  }

  /** The same at the end of a block, where a byte may be handed back. */
  lemma AnswersAtEnd(p: Spot, q: Spot, s: Spot, endIn: nat, r0: Ret, r: Ret, r': Ret)
    requires Answers(p, q, endIn, r0, r) && r != Z_DATA_ERROR && (r0 == Z_OK || r0 == Z_BUF_ERROR)
    requires q.bits == s.bits && q.bytes <= s.bytes && (p.bits < q.bits || q.next == s.next)
    requires r' == if r == Z_BUF_ERROR && q.bytes < s.bytes then Z_OK else r
    ensures Answers(p, s, endIn, r0, r')
    ensures p.bits < q.bits || q.bytes < s.bytes ==> Answers(p, s, endIn, r0, Z_STREAM_END)
  {
  }

  /** inflate_blocks_state and the input and output of z_stream. The input is one stream of which
      the bytes up to endIn are available. */
  class Inflater {
    const stream: seq<Byte>
    const w: nat
    const window: array<Byte>
    const hufts: array<Entry>
    var nextIn: nat
    var endIn: nat
    var bitb: nat
    var bitk: nat
    var mode: Mode
    var last: bool
    var read: nat
    var write: nat
    var availOut: nat
    var output: seq<Byte>
    var check: nat
    ghost var base: nat
    ghost var start: State
    ghost var steps: nat
    ghost var now: State
    ghost var dropped: nat

    ghost function TheEnv(): Env { Env(BytesBits(stream), w) }

    ghost predicate Reading()
      reads this`nextIn, this`endIn, this`bitb, this`bitk
    {
      ReaderOk(stream, nextIn, endIn, bitb, bitk)
    }

    ghost predicate InWindow(text: seq<Byte>)
      reads this`base, this`output, this`read, this`write, window
    {
      w == window.Length && WindowOk(window[..], w, text, base, |output|, read, write)
    }

    /** The output is the text behind base, as far as it goes. */
    ghost predicate Sent(text: seq<Byte>)
      reads this`base, this`output, this`check
    {
      base + |output| <= |text| && output == text[base..base + |output|] && check == Checksum(output)
    }

    /** The decoder has come to `now` after some number of steps; the bit buffer is behind the bits
        that have been dropped since. */
    ghost predicate OnTrack()
      reads this`now, this`start, this`steps, this`nextIn, this`bitk, this`last, this`dropped
    {
      && StateOk(TheEnv(), start) && now == Run(TheEnv(), start, steps) && now.pos <= |TheEnv().bits|
      && bitk <= 8 * nextIn && now.pos + dropped == 8 * nextIn - bitk && now.last == last
    }

    ghost predicate Core()
      reads this`nextIn, this`endIn, this`bitb, this`bitk, this`last, this`read, this`write, this`output, this`check,
            this`base, this`start, this`steps, this`now, this`dropped, window
    {
      Reading() && InWindow(now.text) && Sent(now.text) && OnTrack() && hufts.Length == MANY
    }

    /** The mode m stands for the state of the decoder. */
    ghost predicate In(m: Mode)
      reads this`now, this`dropped
    {
      now.pos <= |TheEnv().bits| && Shows(TheEnv().bits, m, now, dropped)
    }

    ghost predicate Valid()
      reads this, window
    {
      && Core() && In(mode) && (mode.STORED? ==> bitk == 0 && bitb == 0)
      && (mode.LENS? || mode.BAD? || bitk <= 15) && (mode.DRY? || mode.DONE? ==> bitk <= 7) &&
          (mode.DONE? ==> read == write)
    }

    /** As Valid, but with bits in the buffer for the state to look at. */
    ghost predicate Fetched()
      reads this, window
    {
      Core() && In(mode) && !mode.STORED? && !mode.DRY? && !mode.DONE?
    }

    /** An error was found. */
    predicate Broken()
      reads this`mode
    {
      mode.BAD? || (mode.CODES? && mode.m.BADCODE?)
    }

    /** The number of bits taken from the stream. */
    ghost function At(): nat
      reads this`now, this`dropped
    {
      now.pos + dropped
    }

    ghost function Here(): Spot
      reads this`now, this`dropped, this`output, this`nextIn
    {
      Spot(At(), |output|, nextIn)
    }

    /** There is no room in the window, and the write pointer cannot be wrapped. */
    predicate Full()
      reads this`read, this`write
    {
      (read == 0 && write == w) || read == write + 1
    }

    /** Nothing is done in this state without more input or more room for output. */
    ghost predicate Idle()
      reads this`mode, this`bitk, this`read, this`write, this`now, this`dropped
    {
      match mode
      case TYPE => bitk < 3
      case LENS => bitk < 32
      case STORED(_) => true
      case TABLE => bitk < 14
      case BTREE(table, index, _) => index < 4 + table / 1024 && bitk < 3
      case DTREE(table, index, _, tree) =>
        index < 258 + table % 32 + table / 32 % 32 && LengthWaits(tree, TheEnv().bits, At(), bitk)
      case CODES(_, m) => CodesIdle(m)
      case DRY => read != write
      case DONE => false
      case BAD => true
    }

    /** The same for a state of inflate_codes. */
    ghost predicate CodesIdle(m: CodesMode)
      reads this`bitk, this`read, this`write
    {
      match m
      case START => false
      case LEN(need, _) => bitk < need
      case LENEXT(get, _) => bitk < get
      case DIST(_, need, _) => bitk < need
      case DISTEXT(_, get, _) => bitk < get
      case COPY(len, _) => len > 0 && Full()
      case LIT(_) => Full()
      case WASH => bitk <= 7 && read != write
      case BADCODE => true
    }

    /** Idle after some work, which in the states with output is for want of room. */
    ghost predicate Halted()
      reads this`mode, this`bitk, this`read, this`write, this`now, this`dropped, this`availOut
    {
      Idle() && (mode.DRY? || (mode.CODES? && (mode.m.COPY? || mode.m.LIT? || mode.m.WASH?)) ==> availOut == 0)
    }

    /** The answer so far may still become Z_OK or stay Z_BUF_ERROR. */
    ghost predicate Ready(r: Ret)
      reads this`mode, this`bitk, this`read, this`write, this`now, this`dropped
    {
      && (r == Z_OK || r == Z_BUF_ERROR)
      && (r == Z_BUF_ERROR || (mode.CODES? && mode.m.WASH?) ==> Idle())
    }

    /** All available input has been taken. If that is all of the stream, it ends less than a code
        (or the length of a stored block) further on. */
    ghost predicate Starved()
      reads this`nextIn, this`endIn, this`now
    {
      && nextIn == endIn
      && (endIn == |stream| ==>
            now.pos + MAX_BITS > 8 * |stream| || (now.mode.StoredSize? && now.pos + 32 > 8 * |stream|))
    }

    /** Nothing more can be done without input or room; or the stream is invalid. */
    ghost predicate Stopped()
      reads this`nextIn, this`endIn, this`now, this`availOut, this`read, this`write
    {
      Starved() || now.mode.Invalid? || (availOut == 0 && read != write)
    }

    /** inflate_blocks_new. What is in the window at first is not known. */
    constructor (stream: seq<Byte>, window: array<Byte>)
      requires window.Length > 0
      ensures Valid() && this.stream == stream && this.window == window && fresh(hufts)
      ensures output == [] && start == State(BlockType, false, 0, window[..]) && base == w == window.Length &&
              steps == 0
      ensures mode == TYPE && nextIn == endIn == 0 && read == write == 0 && Idle()
    {
      this.stream, this.w, this.window := stream, window.Length, window;
      hufts := new Entry[MANY](_ => Entry(0, 0, 0));
      nextIn, endIn, bitb, bitk, mode, last := 0, 0, 0, 0, TYPE, false;
      read, write, availOut, output, check := 0, 0, 0, [], 1;
      base, steps, dropped := window.Length, 0, 0;
      start, now := State(BlockType, false, 0, window[..]), State(BlockType, false, 0, window[..]);
      new;
      hide Inflater.Valid, Inflater.Idle, BytesBits;
      FreshOk();
    }

    lemma FreshOk()
      requires w == window.Length > 0 && hufts.Length == MANY && mode == TYPE && !last
      requires nextIn == endIn == bitb == bitk == read == write == 0 && output == [] && check == 1
      requires base == w && steps == 0 && dropped == 0 && start == now == State(BlockType, false, 0, window[..])
      ensures Valid() && Idle()
    {
      hide BytesBits, ReaderOk, WindowOk, Checksum, Run, StateOk, CodesShow;
      EmptyBuffer(stream, 0, 0);
      FreshWindow(window[..], w);
      FreshStart(TheEnv(), start);
      ChecksumNone();
    }

    /** The blocks begin behind n bytes of the stream. */
    method Begin(n: nat)
      requires Valid() && mode.TYPE? && steps == 0 && bitk == 0 && n <= |stream|
      modifies this`nextIn, this`endIn, this`bitb, this`start, this`now
      ensures Valid() && start == old(start).(pos := 8 * n) && nextIn == endIn == n && Idle() &&
              At() == 8 * n
    {
      hide Inflater.InWindow, Inflater.Sent, BytesBits, StateOk, CodesShow;
      Shown(TheEnv().bits, mode, now, dropped);
      LaterStart(TheEnv(), start, 8 * n);
      EmptyBuffer(stream, n, n);
      nextIn, endIn, bitb := n, n, 0;
      start := start.(pos := 8 * n);
      now := start;
    }

    /** inflate_set_dictionary: text that comes before the first byte of the output. */
    method SetDictionary(d: seq<Byte>)
      requires Valid() && mode.TYPE? && steps == 0 && output == [] && read == write == 0 && |d| < w && base == w &&
               start.text == window[..]
      modifies this`read, this`write, this`base, this`start, this`now, window
      ensures Valid() && output == [] && steps == 0 && base == w + |d| &&
              start == old(start).(text := old(start).text + d)
    {
      hide Inflater.Core, BytesBits, Shows, Run, StateOk;
      ghost var before := now;
      Preload(d);
      TypeShows(TheEnv().bits, before, dropped, now.text);
    }

    /** zmemcpy(s->window, d, n). */
    method Preload(d: seq<Byte>)
      requires Core() && steps == 0 && output == [] && read == write == 0 && |d| < w && base == w &&
               start.text == window[..]
      modifies this`read, this`write, this`base, this`start, this`now, window
      ensures Core() && base == w + |d| && start == old(start).(text := old(start).text + d) &&
              now == old(now).(text := start.text)
    {
      hide StateOk, BytesBits, Inflater.InWindow, Inflater.Reading, Checksum, WindowOk, Run;
      ghost var init := window[..];
      InOrder();
      LongerStart(TheEnv(), start, start.text);
      CopyIn(window, d);
      read, write := |d|, |d|;
      LongerStart(TheEnv(), start, init + d);
      base := w + |d|;
      start := start.(text := init + d);
      now := start;
      InWindowIs(now.text);
    }

    lemma InWindowIs(text: seq<Byte>)
      requires w == window.Length && WindowOk(window[..], w, text, base, |output|, read, write)
      ensures InWindow(text)
    {
      hide WindowOk;
    }

    /** One call of inflate on the blocks: some input, some room for output. If no output is left
        waiting, the stream is done or invalid, or more input is needed. */
    method Call(availIn: nat, room: nat, r0: Ret) returns (r: Ret)
      requires Valid() && nextIn + availIn <= |stream| && (r0 == Z_OK || r0 == Z_BUF_ERROR) && (Idle() || mode.DONE?)
      modifies this, window, hufts
      ensures Valid() && old(output) <= output && start == old(start) && base == old(base)
      ensures nextIn <= endIn == old(nextIn) + availIn
      ensures |output| - |old(output)| <= room
      ensures (r == Z_STREAM_END <==> mode.DONE?) && (r == Z_DATA_ERROR <==> now.mode.Invalid?)
      ensures (Idle() || mode.DONE?) && (!old(mode.DONE?) ==> Answers(old(Here()), Here(), endIn, r0, r))
      ensures read != write ==> |output| - |old(output)| == room
      ensures read == write ==>
                base <= |now.text| && output == now.text[base..] && (mode.DONE? || now.mode.Invalid? || Starved())
    {
      hide Inflater.Core, BytesBits, Shows;
      BitPosition();
      Offer(availIn, room);
      r := InflateBlocks(r0);
      if read == write { AllDelivered(); }
      BrokenIs(TheEnv().bits, mode, now, dropped);
      BitPosition();
    }

    /** The input and the room of a call. */
    method Offer(availIn: nat, room: nat)
      requires Valid() && nextIn + availIn <= |stream|
      modifies this`endIn, this`availOut
      ensures Here() == old(Here()) && Idle() == old(Idle())
      ensures Valid() && endIn == nextIn + availIn && availOut == room
    {
      hide StateOk, BytesBits, Holds, Checksum, WindowOk, Run, Shows;
      endIn, availOut := nextIn + availIn, room;
    }

    lemma AllDelivered()
      requires Core() && read == write
      ensures base <= |now.text| && output == now.text[base..]
    {
      hide StateOk, BytesBits, ReaderOk, Checksum, Run, Slot, Current;
    }

    /** WAVAIL. */
    function Avail(): nat
      reads this`read, this`write
      requires read < w && write <= w
    {
      WAvail(w, read, write)
    }

    /** inflate_flush, one of its two parts: n bytes from read on. */
    method Deliver(n: nat)
      requires InWindow(now.text) && Sent(now.text) && n <= availOut && read + n <= (if read <= write then write else w)
      modifies this`read, this`write, this`availOut, this`output, this`check
      ensures InWindow(now.text) && Sent(now.text) && output == old(output) + window[old(read)..old(read) + n] &&
              availOut == old(availOut) - n
      ensures if old(read) + n < w then read == old(read) + n && write == old(write)
              else read == 0 && write == if old(write) == w then 0 else old(write)
    {
      hide WindowOk, Checksum, Pack, Unpack, Sums.Over;
      DeliverOk(window[..], w, now.text, base, output, read, write, n);
      assert window[..][read..read + n] == window[read..read + n];
      check := Pack(Unpack(check).Over(window[read..read + n]));
      output := output + window[read..read + n];
      availOut := availOut - n;
      read := read + n;
      if read == w {
        read := 0;
        if write == w { write := 0; }
      }
    }

    /** inflate_flush: as much as possible from the window to the output. */
    method Flush(r0: Ret) returns (r: Ret)
      requires InWindow(now.text) && Sent(now.text)
      modifies this`read, this`write, this`availOut, this`output, this`check
      ensures InWindow(now.text) && Sent(now.text) && old(output) <= output &&
              |output| + availOut == old(|output| + availOut)
      ensures availOut == 0 || read == write
      ensures old(availOut) == 0 || old(read == write) ==> read == old(read) && write == old(write)
      ensures |output| == |old(output)| ==> read == old(read) && write == old(write)
      ensures old(read != write && availOut > 0) ==> |output| > |old(output)|
      ensures r == if r0 == Z_BUF_ERROR && |output| > |old(output)| then Z_OK else r0
    {
      hide WindowOk, Checksum;
      r := r0;
      WindowBounds(window[..], w, now.text, base, |output|, read, write);
      var n := Min((if read <= write then write else w) - read, availOut);
      var wrap := read + n == w;
      if n > 0 && r == Z_BUF_ERROR { r := Z_OK; }
      Deliver(n);
      if wrap {
        WindowBounds(window[..], w, now.text, base, |output|, read, write);
        n := Min(write, availOut);
        if n > 0 && r == Z_BUF_ERROR { r := Z_OK; }
        Deliver(n);
      }
    }

    /** NEEDBITS: at least j bits in the buffer, or all available input taken. The length of a stored
        block is read from a byte boundary. */
    method NeedBits(j: nat, r0: Ret) returns (ok: bool, r: Ret)
      requires Reading() && (j <= 25 || (j == 32 && bitk % 8 == 0))
      modifies this`nextIn, this`bitb, this`bitk
      ensures Reading() && bitk <= 8 * nextIn && 8 * nextIn - bitk == old(8 * nextIn - bitk)
      ensures ok <==> bitk >= j
      ensures !ok ==> nextIn == endIn
      ensures bitk <= Max(old(bitk), j + 7)
      ensures nextIn >= old(nextIn) && r == if nextIn > old(nextIn) then Z_OK else r0
    {
      hide Holds, Or, Shl;
      r := r0;
      while bitk < j
        invariant Reading() && bitk <= 8 * nextIn && 8 * nextIn - bitk == old(8 * nextIn - bitk)
        invariant (j == 32 ==> bitk % 8 == 0) && bitk <= Max(old(bitk), j + 7)
        invariant nextIn >= old(nextIn) && r == if nextIn > old(nextIn) then Z_OK else r0
        decreases j - bitk
      {
        if nextIn == endIn { return false, r; }
        if j == 32 { WholeBytes(bitk); }
        r := Z_OK;
        TakeByte(stream, nextIn, endIn, bitb, bitk);
        bitb := Or(bitb, Shl(stream[nextIn], bitk));
        nextIn, bitk := nextIn + 1, bitk + 8;
      }
      ok := true;
    }

    /** DUMPBITS. */
    method DumpBits(j: nat)
      requires Reading() && j <= bitk
      modifies this`bitb, this`bitk
      ensures Reading() && bitk == old(bitk) - j
    {
      hide Holds;
      DropBits(stream, nextIn, endIn, bitb, bitk, j);
      bitb, bitk := Shr(bitb, j), bitk - j;
    }

    /** WRAP. */
    method Wrap()
      requires InWindow(now.text)
      modifies this`write
      ensures InWindow(now.text) && write == if old(write) == w && read != 0 then 0 else old(write)
    {
      hide WindowOk;
      WindowBounds(window[..], w, now.text, base, |output|, read, write);
      if write == w && read != 0 {
        Wrapped(window[..], w, now.text, base, |output|, read);
        write := 0;
      }
    }

    /** NEEDOUT: room for a byte, after a flush if necessary. */
    method NeedOut(r0: Ret) returns (ok: bool, r: Ret)
      requires InWindow(now.text) && Sent(now.text)
      modifies this`read, this`write, this`availOut, this`output, this`check
      ensures InWindow(now.text) && Sent(now.text) && old(output) <= output &&
              |output| + availOut == old(|output| + availOut)
      ensures read < w && write <= w && (ok <==> Avail() > 0)
      ensures !ok ==> availOut == 0 && read != write && Full()
      ensures old(Full()) && ok ==> |output| > |old(output)|
      ensures r == if ok || (r0 == Z_BUF_ERROR && |output| > |old(output)|) then Z_OK else r0
    {
      hide WindowOk, Checksum;
      r := r0;
      WindowBounds(window[..], w, now.text, base, |output|, read, write);
      if Avail() == 0 {
        Wrap();
        if Avail() == 0 {
          r := Flush(r);
          Wrap();
          WindowBounds(window[..], w, now.text, base, |output|, read, write);
          if Avail() == 0 { return false, r; }
        }
      }
      return true, Z_OK;
    }

    /** The next j bits of the buffer are those of the stream. */
    lemma BitsAre(j: nat)
      requires Reading() && OnTrack() && j <= bitk
      ensures At() + j <= |TheEnv().bits| && Low(bitb, j) == Peek(TheEnv().bits, At(), j)
    {
      hide Holds, Run, BytesBits, StateOk;
      DropBits(stream, nextIn, endIn, bitb, bitk, j);
    }

    /** NEEDBITS, and the bits it looks at. */
    method Fetch(j: nat, r0: Ret) returns (ok: bool, x: nat, r: Ret)
      requires Valid() && !mode.STORED? && !mode.DRY? && !mode.DONE? && (j <= 25 || (j == 32 && bitk % 8 == 0))
      modifies this`nextIn, this`bitb, this`bitk
      ensures Fetched() && bitk <= Max(old(bitk), j + 7) && (!ok ==> bitk < j) &&
              (ok ==> bitk >= j && At() + j <= |TheEnv().bits| && x == Peek(TheEnv().bits, At(), j))
      ensures !ok ==> nextIn == endIn && At() + j > 8 * nextIn
      ensures old(nextIn) <= nextIn <= endIn && (ok && old(bitk) < j ==> nextIn > old(nextIn)) &&
              bitk >= old(bitk) && (nextIn == old(nextIn) ==> bitk == old(bitk))
      ensures Answers(old(Here()), Here(), endIn, r0, r)
      ensures r == if nextIn > old(nextIn) then Z_OK else r0
    {
      hide ReaderOk, Low, Run, InWindow, Sent, BytesBits, Shows, StateOk;
      x := 0;
      ok, r := NeedBits(j, r0);
      KnownBits();
      if ok {
        BitsAre(j);
        x := Low(bitb, j);
      }
    }

    lemma KnownBits()
      requires Reading()
      ensures bitk <= 8 * nextIn && nextIn <= endIn <= |stream|
    {
      hide Holds;
    }

    /** DUMPBITS in the middle of a symbol. */
    method Skip(d: nat)
      requires Core() && d <= bitk
      modifies this`bitb, this`bitk, this`dropped
      ensures Core() && bitk == old(bitk) - d && dropped == old(dropped) + d
    {
      hide WindowOk, ReaderOk, BytesBits, Checksum, Run, StateOk;
      DumpBits(d);
      dropped := dropped + d;
    }

    /** DUMPBITS and one step of the decoder that puts out nothing. */
    method Turn(d: nat, isLast: bool, ghost over: nat)
      requires Core() && d <= bitk && StateOk(TheEnv(), now)
      requires Quiet(TheEnv(), now, dropped + d, isLast, over)
      modifies this`bitb, this`bitk, this`last, this`now, this`steps, this`dropped
      ensures Core() && bitk == old(bitk) - d && now == Step(TheEnv(), old(now)) && last == isLast && dropped == over
    {
      hide WindowOk, ReaderOk, BytesBits, Checksum, Run, Step, StateOk;
      RunNext(TheEnv(), start, steps);
      DumpBits(d);
      now, steps, dropped := Step(TheEnv(), now), steps + 1, over;
      last := isLast;
    }

    /** DUMPBITS(t->bits) for an entry of the table for literals and lengths. */
    method TakeLen(c: Codes, need: nat, tree: nat, x: nat)
      requires Core() && In(CODES(c, LEN(need, tree))) && need <= bitk && At() + need <= |TheEnv().bits|
      requires x == Peek(TheEnv().bits, At(), need)
      modifies this`bitb, this`bitk, this`last, this`now, this`steps, this`dropped
      ensures tree + x < |c.hp| && Core() && In(CODES(c, LenMode(c.hp[tree + x], tree + x)))
      ensures 1 <= c.hp[tree + x].bits <= need && bitk == old(bitk) - c.hp[tree + x].bits &&
              At() == old(At()) + c.hp[tree + x].bits
      ensures LenMode(c.hp[tree + x], tree + x).LEN? ==> now == old(now)
    {
      hide Inflater.Core, BytesBits, Peek, LenMode, CodesShow, Step, StateOk;
      InOrder();
      LenNext(TheEnv(), now, c, need, tree, dropped, x);
      var e := c.hp[tree + x];
      if LenMode(e, tree + x).LEN? {
        Skip(e.bits);
      } else {
        BitPosition();
        Turn(e.bits, last, if LenMode(e, tree + x).BADCODE? then dropped + e.bits else 0);
      }
    }

    /** DUMPBITS(t->bits) for an entry of the table for distances. */
    method TakeDist(c: Codes, len: nat, need: nat, tree: nat, x: nat)
      requires Core() && In(CODES(c, DIST(len, need, tree))) && need <= bitk && At() + need <= |TheEnv().bits|
      requires x == Peek(TheEnv().bits, At(), need)
      modifies this`bitb, this`bitk, this`last, this`now, this`steps, this`dropped
      ensures tree + x < |c.hp| && Core() && In(CODES(c, DistMode(c.hp[tree + x], tree + x, len)))
      ensures 1 <= c.hp[tree + x].bits <= need && bitk == old(bitk) - c.hp[tree + x].bits &&
              At() == old(At()) + c.hp[tree + x].bits
      ensures DistMode(c.hp[tree + x], tree + x, len).DIST? ==> now == old(now)
    {
      hide Inflater.Core, BytesBits, Peek, DistMode, CodesShow, Step, StateOk;
      InOrder();
      DistNext(TheEnv(), now, c, len, need, tree, dropped, x);
      var e := c.hp[tree + x];
      if DistMode(e, tree + x, len).DIST? {
        Skip(e.bits);
      } else {
        BitPosition();
        Turn(e.bits, last, if DistMode(e, tree + x, len).BADCODE? then dropped + e.bits else 0);
      }
    }

    /** Extra bits of a length. */
    method TakeLenExtra(c: Codes, get: nat, len: nat, x: nat)
      requires Core() && In(CODES(c, LENEXT(get, len))) && get <= bitk && At() + get <= |TheEnv().bits|
      requires x == Peek(TheEnv().bits, At(), get)
      modifies this`bitb, this`bitk, this`last, this`now, this`steps, this`dropped
      ensures Core() && In(CODES(c, DIST(len + x, c.dbits, c.dtree))) && dropped == 0
      ensures At() == old(At()) + get && bitk == old(bitk) - get
    {
      hide Inflater.Core, BytesBits, Peek, CodesShow, Step, StateOk;
      InOrder();
      LenExtNext(TheEnv(), now, c, get, len, x, dropped);
      BitPosition();
      Turn(get, last, 0);
    }

    /** Extra bits of a distance. */
    method TakeDistExtra(c: Codes, len: nat, get: nat, dist: nat, x: nat)
      requires Core() && In(CODES(c, DISTEXT(len, get, dist))) && get <= bitk && At() + get <= |TheEnv().bits|
      requires x == Peek(TheEnv().bits, At(), get)
      modifies this`bitb, this`bitk, this`last, this`now, this`steps, this`dropped
      ensures Core() && In(CODES(c, COPY(len, dist + x))) && At() == old(At()) + get && bitk == old(bitk) - get
    {
      hide Inflater.Core, BytesBits, Peek, CodesShow, Step, StateOk;
      InOrder();
      DistExtNext(TheEnv(), now, c, len, get, dist, x, dropped);
      BitPosition();
      Turn(get, last, 0);
    }

    /** The end of a copy. */
    method EndCopy(c: Codes, dist: nat)
      requires Core() && In(CODES(c, COPY(0, dist)))
      modifies this`bitb, this`bitk, this`last, this`now, this`steps, this`dropped
      ensures Core() && In(CODES(c, START)) && At() == old(At()) && bitk == old(bitk)
    {
      hide Inflater.Core, BytesBits, CodesShow, Step, StateOk;
      InOrder();
      CopyNext(TheEnv(), now, c, dist, dropped);
      BitPosition();
      Turn(0, last, 0);
    }

    /** LEN: look up a literal or length code. */
    method LenState(c: Codes, need: nat, tree: nat, r0: Ret) returns (leave: bool, r: Ret)
      requires Valid() && mode == CODES(c, LEN(need, tree))
      requires Ready(r0)
      modifies this`nextIn, this`bitb, this`bitk, this`mode, this`last, this`now, this`steps, this`dropped
      ensures Valid() && mode.CODES? && mode.c == c
      ensures leave ==> Stopped() && Halted()
      ensures Answers(old(Here()), Here(), endIn, r0, r) && (!leave ==> r == Z_OK)
      ensures !leave ==> At() > old(At())
      ensures r != Z_STREAM_END && (leave ==> !mode.m.WASH?)
      ensures At() >= old(At())
      ensures r == Z_DATA_ERROR <==> Broken()
    {
      hide Inflater.Core, Peek, LenMode, CodesShow, BytesBits, Inflater.Starved, Answers;
      LenNeed(TheEnv().bits, c, need, tree, now, dropped);
      var ok, x;
      ok, x, r := Fetch(need, r0);
      if !ok { WaitsFor(need); return true, r; }
      ghost var q := Here();
      TakeLen(c, need, tree, x);
      AnswersMore(old(Here()), q, Here(), endIn, r0, r);
      mode := CODES(c, LenMode(c.hp[tree + x], tree + x));
      leave := mode.m.BADCODE?;
      if leave { r := Z_DATA_ERROR; Bad(TheEnv().bits, c, now, dropped); }
    }

    /** LENEXT: the extra bits of a length. */
    method LenExtState(c: Codes, get: nat, len: nat, r0: Ret) returns (leave: bool, r: Ret)
      requires Valid() && mode == CODES(c, LENEXT(get, len))
      requires Ready(r0)
      modifies this`nextIn, this`bitb, this`bitk, this`mode, this`last, this`now, this`steps, this`dropped
      ensures Valid() && mode.CODES? && mode.c == c
      ensures leave ==> Stopped() && Halted()
      ensures Answers(old(Here()), Here(), endIn, r0, r) && (!leave ==> r == Z_OK)
      ensures !leave ==> At() >= old(At()) && mode.m.DIST?
      ensures r != Z_STREAM_END && (leave ==> !mode.m.WASH?)
      ensures At() >= old(At())
      ensures r == Z_DATA_ERROR <==> Broken()
    {
      hide Inflater.Core, Peek, CodesShow, BytesBits, Inflater.Starved;
      InOrder();
      ExtraSmall(TheEnv(), now, c, mode.m, dropped);
      var ok, x;
      ok, x, r := Fetch(get, r0);
      if !ok { WaitsFor(get); return true, r; }
      TakeLenExtra(c, get, len, x);
      mode := CODES(c, DIST(len + x, c.dbits, c.dtree));
      leave := false;
    }

    /** DIST: look up a distance code. */
    method DistState(c: Codes, len: nat, need: nat, tree: nat, r0: Ret) returns (leave: bool, r: Ret)
      requires Valid() && mode == CODES(c, DIST(len, need, tree))
      requires Ready(r0)
      modifies this`nextIn, this`bitb, this`bitk, this`mode, this`last, this`now, this`steps, this`dropped
      ensures Valid() && mode.CODES? && mode.c == c
      ensures leave ==> Stopped() && Halted()
      ensures Answers(old(Here()), Here(), endIn, r0, r) && (!leave ==> r == Z_OK)
      ensures !leave ==> At() > old(At())
      ensures r != Z_STREAM_END && (leave ==> !mode.m.WASH?)
      ensures At() >= old(At())
      ensures r == Z_DATA_ERROR <==> Broken()
    {
      hide Inflater.Core, Peek, DistMode, CodesShow, BytesBits, Inflater.Starved, Answers;
      DistNeed(TheEnv().bits, c, len, need, tree, now, dropped);
      var ok, x;
      ok, x, r := Fetch(need, r0);
      if !ok { WaitsFor(need); return true, r; }
      ghost var q := Here();
      TakeDist(c, len, need, tree, x);
      AnswersMore(old(Here()), q, Here(), endIn, r0, r);
      mode := CODES(c, DistMode(c.hp[tree + x], tree + x, len));
      leave := mode.m.BADCODE?;
      if leave { r := Z_DATA_ERROR; Bad(TheEnv().bits, c, now, dropped); }
    }

    /** DISTEXT: the extra bits of a distance. */
    method DistExtState(c: Codes, len: nat, get: nat, dist: nat, r0: Ret) returns (leave: bool, r: Ret)
      requires Valid() && mode == CODES(c, DISTEXT(len, get, dist))
      requires Ready(r0)
      modifies this`nextIn, this`bitb, this`bitk, this`mode, this`last, this`now, this`steps, this`dropped
      ensures Valid() && mode.CODES? && mode.c == c
      ensures leave ==> Stopped() && Halted()
      ensures Answers(old(Here()), Here(), endIn, r0, r) && (!leave ==> r == Z_OK)
      ensures !leave ==> At() >= old(At()) && mode.m.COPY?
      ensures r != Z_STREAM_END && (leave ==> !mode.m.WASH?)
      ensures At() >= old(At())
      ensures r == Z_DATA_ERROR <==> Broken()
    {
      hide Inflater.Core, Peek, CodesShow, BytesBits, Inflater.Starved;
      InOrder();
      ExtraSmall(TheEnv(), now, c, mode.m, dropped);
      var ok, x;
      ok, x, r := Fetch(get, r0);
      if !ok { WaitsFor(get); return true, r; }
      TakeDistExtra(c, len, get, dist, x);
      mode := CODES(c, COPY(len, dist + x));
      leave := false;
    }

    /** OUTBYTE: one byte of the text. */
    method OutByte(c: Codes, x: Byte, ghost m: CodesMode)
      requires Core() && read < w && write <= w && Avail() > 0 && StateOk(TheEnv(), now)
      requires Loud(TheEnv(), now, c, m, x, dropped)
      modifies this`write, this`now, this`steps, window
      ensures Core() && In(CODES(c, m)) && now.text == old(now).text + [x] && At() == old(At())
      ensures write == old(write) + 1
    {
      hide WindowOk, ReaderOk, BytesBits, Checksum, Run, Step, StateOk, CodesShow, Inflater.Reading;
      RunNext(TheEnv(), start, steps);
      PutByte(window[..], w, now.text, base, |output|, read, write, x);
      WindowBounds(window[..], w, now.text, base, |output|, read, write);
      FrontStays(now.text, x, base, |output|);
      ghost var win := window[..];
      window[write] := x;
      assert window[..] == win[write := x];
      write := write + 1;
      now, steps := Step(TheEnv(), now), steps + 1;
    }

    /** NEEDOUT in any state of the decoder. */
    method Room(r0: Ret) returns (ok: bool, r: Ret)
      requires Core()
      modifies this`read, this`write, this`availOut, this`output, this`check
      ensures Core() && old(output) <= output && |output| + availOut == old(|output| + availOut)
      ensures read < w && write <= w && (ok <==> Avail() > 0)
      ensures !ok ==> availOut == 0 && read != write && Full()
      ensures old(Full()) && ok ==> |output| > |old(output)|
      ensures r == if ok || (r0 == Z_BUF_ERROR && |output| > |old(output)|) then Z_OK else r0
    {
      hide WindowOk, ReaderOk, BytesBits, Checksum, Run, StateOk;
      ok, r := NeedOut(r0);
    }

    /** `f = q - dist`, brought into the window. */
    method FindSource(dist: nat) returns (f: nat)
      requires Core() && dist >= 1
      ensures |now.text| >= Back(dist, w) && f == Slot(|now.text| - Back(dist, w), w)
    {
      hide Slot, Back, Current, ReaderOk, Run, StateOk, Checksum, BytesBits;
      WindowBounds(window[..], w, now.text, base, |output|, read, write);
      SourceIs(|now.text|, write, dist, w);
      var g: int := write - dist;
      while g < 0
        invariant Source(g, w) == Source(write - dist, w)
        decreases -g
      {
        g := g + w;
      }
      f := g;
    }

    /** One byte of a copy, from slot f. */
    method CopyByte(c: Codes, len: nat, dist: nat, f: nat) returns (f': nat)
      requires Core() && In(CODES(c, COPY(len, dist))) && len > 0 && dist >= 1
      requires read < w && write <= w && Avail() > 0
      requires |now.text| >= Back(dist, w) && f == Slot(|now.text| - Back(dist, w), w)
      modifies this`write, this`now, this`steps, window
      ensures Core() && In(CODES(c, COPY(len - 1, dist))) && At() == old(At())
      ensures |now.text| >= Back(dist, w) && f' == Slot(|now.text| - Back(dist, w), w)
      ensures write == old(write) + 1 && f' == if f + 1 == w then 0 else f + 1
    {
      hide Slot, Back, WindowOk, ReaderOk, BytesBits, Checksum, Run, StateOk, CodesShow, Step;
      InOrder();
      ByteBack(window[..], w, now.text, base, |output|, read, write, dist);
      SlotNext(|now.text| - Back(dist, w), w);
      CopyLoud(TheEnv(), now, c, len, dist, dropped);
      assert window[..][f] == window[f];
      OutByte(c, window[f], COPY(len - 1, dist));
      f' := f + 1;
      if f' == w { f' := 0; }
    }

    /** The loop of COPY. */
    method CopyLoop(c: Codes, len0: nat, dist: nat, r0: Ret) returns (leave: bool, r: Ret)
      requires Core() && mode == CODES(c, COPY(len0, dist)) && In(mode) && dist >= 1
      requires r0 == Z_OK || (r0 == Z_BUF_ERROR && Full() && len0 > 0)
      modifies this`read, this`write, this`availOut, this`output, this`check, this`mode, this`now, this`steps, window
      ensures Core() && mode.CODES? && mode.c == c && mode.m.COPY? && mode.m.dist == dist && In(mode)
      ensures old(output) <= output && |output| + availOut == old(|output| + availOut) && At() == old(At())
      ensures if leave then mode.m.len > 0 && availOut == 0 && read != write && Full() else mode.m.len == 0 && r == Z_OK
      ensures r == if r0 == Z_OK || |output| > |old(output)| then Z_OK else Z_BUF_ERROR
    {
      hide Slot, Back, Inflater.Core, CodesShow, BytesBits, StateOk;
      r := r0;
      var len := len0;
      var f := FindSource(dist);
      while len > 0
        invariant len >= 0 && Core() && mode == CODES(c, COPY(len, dist)) && In(mode)
        invariant |now.text| >= Back(dist, w) && f == Slot(|now.text| - Back(dist, w), w)
        invariant old(output) <= output && |output| + availOut == old(|output| + availOut) && At() == old(At())
        invariant r == if r0 == Z_OK || |output| > |old(output)| then Z_OK else Z_BUF_ERROR
        invariant r == Z_OK || (Full() && len > 0)
      {
        var ok;
        ok, r := Room(r);
        if !ok { return true, r; }
        f := CopyByte(c, len, dist, f);
        len := len - 1;
        mode := CODES(c, COPY(len, dist));
      }
      leave := false;
    }

    /** COPY: bytes from the window, as long as there is room. */
    method CopyState(c: Codes, len0: nat, dist: nat, r0: Ret) returns (leave: bool, r: Ret)
      requires Valid() && mode == CODES(c, COPY(len0, dist))
      requires Ready(r0)
      modifies this`read, this`write, this`availOut, this`output, this`check, this`mode, this`last, this`now,
               this`steps, this`dropped, this`bitb, this`bitk, window
      ensures Valid() && mode.CODES? && mode.c == c && old(output) <= output &&
              |output| + availOut == old(|output| + availOut)
      ensures leave ==> availOut == 0 && read != write && Halted()
      ensures Answers(old(Here()), Here(), endIn, r0, r) && (!leave ==> r == Z_OK)
      ensures !leave ==> At() == old(At()) && mode.m.START?
      ensures r != Z_STREAM_END && (leave ==> !mode.m.WASH?)
      ensures At() >= old(At())
      ensures r == Z_DATA_ERROR <==> Broken()
    {
      hide Slot, Back, Inflater.Core, CodesShow, BytesBits, StateOk;
      InOrder();
      CopyOk(TheEnv(), now, c, len0, dist, dropped);
      leave, r := CopyLoop(c, len0, dist, r0);
      if leave { return; }
      EndCopy(c, dist);
      mode := CODES(c, START);
    }

    /** LIT: a literal byte. */
    method LitState(c: Codes, lit: nat, r0: Ret) returns (leave: bool, r: Ret)
      requires Valid() && mode == CODES(c, LIT(lit))
      requires Ready(r0)
      modifies this`read, this`write, this`availOut, this`output, this`check, this`mode, this`now, this`steps, window
      ensures Valid() && mode.CODES? && mode.c == c && old(output) <= output &&
              |output| + availOut == old(|output| + availOut)
      ensures leave ==> availOut == 0 && read != write && Halted()
      ensures Answers(old(Here()), Here(), endIn, r0, r) && (!leave ==> r == Z_OK)
      ensures !leave ==> At() == old(At()) && mode.m.START?
      ensures r != Z_STREAM_END && (leave ==> !mode.m.WASH?)
      ensures At() >= old(At())
      ensures r == Z_DATA_ERROR <==> Broken()
    {
      hide Inflater.Core, CodesShow, BytesBits, StateOk;
      var ok;
      ok, r := Room(r0);
      if !ok { return true, r; }
      InOrder();
      LitLoud(TheEnv(), now, c, lit, dropped);
      OutByte(c, lit % 0x100, START);
      mode := CODES(c, START);
      leave := false;
    }

    /** WASH: a byte that is not needed goes back, and all output goes out. */
    method WashState(r0: Ret) returns (done: bool, r: Ret)
      requires Valid() && mode.CODES? && mode.m.WASH?
      modifies this`nextIn, this`bitk, this`read, this`write, this`availOut, this`output, this`check
      ensures Valid() && old(output) <= output && |output| + availOut == old(|output| + availOut)
      ensures bitk <= 7 && (done <==> read == write)
      ensures !done ==> Halted()
      ensures if old(bitk) <= 7 then nextIn == old(nextIn) else nextIn == old(nextIn) - 1
      ensures |output| == |old(output)| ==> read == old(read) && write == old(write)
      ensures r == if r0 == Z_BUF_ERROR && |output| > |old(output)| then Z_OK else r0
    {
      hide WindowOk, ReaderOk, BytesBits, Checksum, Run, StateOk, Shows;
      if bitk > 7 {
        ReturnBytes(stream, nextIn, endIn, bitb, bitk, 1);
        nextIn, bitk := nextIn - 1, bitk - 8;
      }
      r := Flush(r0);
      done := read == write;
    }

    /** GRABBITS: at least j bits in the buffer, without looking at the input's end. */
    method GrabBits(j: nat)
      requires Core() && j <= 25 && endIn - nextIn >= (j + 7) / 8
      modifies this`nextIn, this`bitb, this`bitk
      ensures Core() && bitk >= j && old(nextIn) <= nextIn <= old(nextIn) + (j + 7) / 8
    {
      hide Holds, Or, Shl, WindowOk, BytesBits, Checksum, Run, StateOk;
      ghost var i := 0;
      while bitk < j
        invariant Core() && nextIn == old(nextIn) + i && i <= (j + 7) / 8 && bitk == old(bitk) + 8 * i
        decreases j - bitk
      {
        TakeByte(stream, nextIn, endIn, bitb, bitk);
        bitb := Or(bitb, Shl(stream[nextIn], bitk));
        nextIn, bitk := nextIn + 1, bitk + 8;
        i := i + 1;
      }
    }

    /** UNGRAB: whole bytes taken since nextIn0 go back. */
    method Ungrab(nextIn0: nat)
      requires Core() && nextIn0 <= nextIn
      modifies this`nextIn, this`bitk
      ensures Core() && nextIn0 <= nextIn <= old(nextIn) && At() == old(At()) && (bitk <= 7 || nextIn == nextIn0)
    {
      hide ReaderOk, WindowOk, BytesBits, Checksum, Run, StateOk;
      var c := Min(bitk / 8, nextIn - nextIn0);
      ReturnBytes(stream, nextIn, endIn, bitb, bitk, c);
      nextIn, bitk := nextIn - c, bitk - 8 * c;
    }

    /** A copy of n bytes that does not reach the end of the window. */
    method CopyRun(c: Codes, len: nat, dist: nat, f0: nat, n: nat)
      requires Core() && In(CODES(c, COPY(len, dist))) && n <= len && dist >= 1
      requires read < w && write <= w && Avail() >= n && f0 + n <= w
      requires |now.text| >= Back(dist, w) && f0 == Slot(|now.text| - Back(dist, w), w)
      modifies this`write, this`now, this`steps, window
      ensures Core() && In(CODES(c, COPY(len - n, dist))) && At() == old(At())
      ensures |now.text| >= Back(dist, w) && (f0 + n == w && n > 0 ==> Slot(|now.text| - Back(dist, w), w) == 0)
      ensures read < w && write == old(write) + n <= w && Avail() == old(Avail()) - n
    {
      hide Slot, Back, Inflater.Core, BytesBits, CodesShow;
      var i, f := 0, f0;
      while i < n
        invariant 0 <= i <= n && Core() && In(CODES(c, COPY(len - i, dist))) && At() == old(At())
        invariant write == old(write) + i <= w && Avail() == old(Avail()) - i
        invariant |now.text| >= Back(dist, w) && f == Slot(|now.text| - Back(dist, w), w)
        invariant f == if f0 + i == w && i > 0 then 0 else f0 + i
      {
        f := CopyByte(c, len - i, dist, f);
        i := i + 1;
      }
    }

    /** The copy loops of inflate_fast, in two parts if the source reaches the end of the
        window. */
    method FastCopy(c: Codes, len: nat, dist: nat)
      requires Core() && In(CODES(c, COPY(len, dist))) && len <= 258 && dist >= 1
      requires read < w && write <= w && Avail() >= len
      modifies this`write, this`last, this`now, this`steps, this`dropped, this`bitb, this`bitk, window
      ensures Core() && In(CODES(c, START)) && At() == old(At()) && bitk == old(bitk)
    {
      hide Slot, Back, Inflater.Core, BytesBits, CodesShow;
      var r := FindSource(dist);
      SourceBelow(|now.text| - Back(dist, w), w);
      if write >= dist {
        InPlace(this, dist, r);
        CopyRun(c, len, dist, r, len);
      } else {
        var e := w - r;
        if len > e {
          CopyRun(c, len, dist, r, e);
          CopyRun(c, len - e, dist, 0, len - e);
        } else {
          CopyRun(c, len, dist, r, len);
        }
      }
      EndCopy(c, dist);
    }

    /** The bits a state looks at, when they are in the buffer already. */
    method Look(j: nat) returns (x: nat)
      requires Core() && j <= bitk
      ensures At() + j <= |TheEnv().bits| && x == Peek(TheEnv().bits, At(), j)
    {
      hide ReaderOk, Low, Run, InWindow, Sent, BytesBits, StateOk;
      BitsAre(j);
      x := Low(bitb, j);
    }

    /** inflate_fast: extra bits of a distance, and the copy. */
    method FastMatch(c: Codes, len: nat, get: nat, base0: nat)
      requires Core() && In(CODES(c, DISTEXT(len, get, base0))) && endIn - nextIn >= 2
      requires read < w && write <= w && Avail() >= 258
      modifies this`nextIn, this`bitb, this`bitk, this`last, this`write, this`now, this`steps, this`dropped, window
      ensures Core() && In(CODES(c, START)) && At() >= old(At()) && old(nextIn) <= nextIn <= old(nextIn) + 2
    {
      hide Inflater.Core, Peek, BytesBits, CodesShow, StateOk;
      InOrder();
      ExtraSmall(TheEnv(), now, c, DISTEXT(len, get, base0), dropped);
      GrabBits(get);
      var x := Look(get);
      TakeDistExtra(c, len, get, base0, x);
      InOrder();
      CopyOk(TheEnv(), now, c, len, base0 + x, dropped);
      FastCopy(c, len, base0 + x);
    }

    /** inflate_fast: the distance code and what follows. */
    method FastDistance(c: Codes, len: nat) returns (ok: bool)
      requires Core() && In(CODES(c, DIST(len, c.dbits, c.dtree))) && dropped == 0 && endIn - nextIn >= 4
      requires read < w && write <= w && Avail() >= 258
      modifies this`nextIn, this`bitb, this`bitk, this`last, this`write, this`now, this`steps, this`dropped, window
      ensures Core() && In(CODES(c, if ok then START else BADCODE)) && At() >= old(At()) &&
              old(nextIn) <= nextIn <= old(nextIn) + 4
    {
      hide Inflater.Core, Peek, BytesBits, HasBit, CodesShow;
      GrabBits(15);
      var need: nat, tree: nat := c.dbits, c.dtree;
      while true
        invariant Core() && In(CODES(c, DIST(len, need, tree)))
        invariant bitk + dropped >= 15 && now == old(now) && At() >= old(At()) && write == old(write) &&
                  old(nextIn) <= nextIn <= old(nextIn) + 2
        decreases |TheEnv().bits| - At()
      {
        DistNeed(TheEnv().bits, c, len, need, tree, now, dropped);
        var x := Look(need);
        TakeDist(c, len, need, tree, x);
        var e := c.hp[tree + x];
        if HasBit(e.exop, 4) {
          FastMatch(c, len, e.exop % 16, e.base);
          return true;
        } else if !HasBit(e.exop, 6) {
          tree, need := tree + x + e.base, e.exop;
        } else {
          return false;
        }
      }
    }

    /** inflate_fast: the extra bits of a length, and the distance. */
    method FastLength(c: Codes, get: nat, base0: nat) returns (ok: bool)
      requires Core() && In(CODES(c, LENEXT(get, base0))) && endIn - nextIn >= 4 && bitk >= 5
      requires read < w && write <= w && Avail() >= 258
      modifies this`nextIn, this`bitb, this`bitk, this`last, this`write, this`now, this`steps, this`dropped, window
      ensures Core() && In(CODES(c, if ok then START else BADCODE)) && At() >= old(At()) &&
              old(nextIn) <= nextIn <= old(nextIn) + 4
    {
      hide Inflater.Core, Peek, BytesBits, CodesShow, StateOk;
      InOrder();
      ExtraSmall(TheEnv(), now, c, LENEXT(get, base0), dropped);
      var y := Look(get);
      TakeLenExtra(c, get, base0, y);
      ok := FastDistance(c, base0 + y);
    }

    /** inflate_fast: one literal or match, or the end of the block. */
    method FastSymbol(c: Codes) returns (r: Ret)
      requires Core() && In(CODES(c, START)) && endIn - nextIn >= 10
      requires read < w && write <= w && Avail() >= 258
      modifies this`nextIn, this`bitb, this`bitk, this`last, this`write, this`now, this`steps, this`dropped, window
      ensures Core() && old(nextIn) <= nextIn <= old(nextIn) + 7 && At() > old(At())
      ensures r != Z_BUF_ERROR && In(CODES(c, if r == Z_OK then START else if r == Z_STREAM_END then WASH else BADCODE))
    {
      hide Inflater.Core, Peek, BytesBits, HasBit, CodesShow, StateOk;
      GrabBits(20);
      var need: nat, tree: nat := c.lbits, c.ltree;
      StartShows(TheEnv().bits, c, now, dropped);
      while true
        invariant Core() && In(CODES(c, LEN(need, tree)))
        invariant bitk + dropped >= 20 && At() >= old(At()) && write == old(write) &&
                  old(nextIn) <= nextIn <= old(nextIn) + 3
        decreases |TheEnv().bits| - At()
      {
        LenNeed(TheEnv().bits, c, need, tree, now, dropped);
        var x := Look(need);
        TakeLen(c, need, tree, x);
        var e := c.hp[tree + x];
        if e.exop == 0 {
          InOrder();
          LitLoud(TheEnv(), now, c, e.base, dropped);
          OutByte(c, e.base % 0x100, START);
          return Z_OK;
        } else if HasBit(e.exop, 4) {
          var ok := FastLength(c, e.exop % 16, e.base);
          return if ok then Z_OK else Z_DATA_ERROR;
        } else if !HasBit(e.exop, 6) {
          tree, need := tree + x + e.base, e.exop;
        } else if HasBit(e.exop, 5) {
          return Z_STREAM_END;
        } else {
          return Z_DATA_ERROR;
        }
      }
    }

    /** inflate_fast: as long as there is input and room enough for any symbol. */
    method InflateFast(c: Codes) returns (r: Ret)
      requires Valid() && mode == CODES(c, START) && endIn - nextIn >= 10
      requires read < w && write <= w && Avail() >= 258
      modifies this`nextIn, this`bitb, this`bitk, this`last, this`write, this`now, this`steps, this`dropped, window
      ensures Core() && nextIn >= old(nextIn) && At() > old(At()) && bitk <= 15
      ensures r != Z_BUF_ERROR && In(CODES(c, if r == Z_OK then START else if r == Z_STREAM_END then WASH else BADCODE))
    {
      hide Inflater.Core, CodesShow, BytesBits;
      BitPosition();
      var nextIn0 := nextIn;
      r := FastSymbol(c);
      WritePointer();
      while r == Z_OK && Avail() >= 258 && endIn - nextIn >= 10
        invariant Core() && nextIn >= old(nextIn) && At() > old(At()) && read < w && write <= w
        invariant r != Z_BUF_ERROR &&
                  In(CODES(c, if r == Z_OK then START else if r == Z_STREAM_END then WASH else BADCODE))
        decreases |TheEnv().bits| - At()
      {
        InStream();
        r := FastSymbol(c);
        WritePointer();
        InStream();
      }
      Ungrab(nextIn0);
      BitPosition();
    }

    /** START: as much as possible the fast way, then the next code. */
    method StartState(c: Codes, r0: Ret) returns (r: Ret)
      requires Valid() && mode == CODES(c, START) && r0 == Z_OK
      modifies this`nextIn, this`bitb, this`bitk, this`last, this`write, this`mode, this`now, this`steps, this`dropped,
               window
      ensures Valid() && mode.CODES? && mode.c == c
      ensures At() > old(At()) || (At() == old(At()) && mode.m.LEN?)
      ensures r == (if mode.m.WASH? then Z_STREAM_END else if mode.m.BADCODE? then Z_DATA_ERROR else Z_OK)
      ensures nextIn >= old(nextIn)
    {
      hide Inflater.Core, CodesShow, BytesBits;
      r := r0;
      WritePointer();
      if Avail() >= 258 && endIn - nextIn >= 10 {
        r := InflateFast(c);
        if r != Z_OK {
          mode := CODES(c, if r == Z_STREAM_END then WASH else BADCODE);
          return;
        }
      }
      StartShows(TheEnv().bits, c, now, dropped);
      mode := CODES(c, LEN(c.lbits, c.ltree));
    }

    /** One round of the loop of inflate_codes, but for WASH and BADCODE. */
    method CodesRound(r0: Ret) returns (leave: bool, r: Ret)
      requires Valid() && mode.CODES? && !mode.m.WASH? && !mode.m.BADCODE? && Ready(r0)
      modifies this`nextIn, this`bitb, this`bitk, this`read, this`write, this`availOut, this`output, this`check,
               this`mode, this`last, this`now, this`steps, this`dropped, window
      ensures Valid() && mode.CODES? && mode.c == old(mode).c && old(output) <= output &&
              |output| + availOut == old(|output| + availOut)
      ensures leave ==> Stopped() && Halted()
      ensures Answers(old(Here()), Here(), endIn, r0, r)
      ensures !leave ==> r == (if r == Z_STREAM_END && mode.m.WASH? then r else if Broken() then Z_DATA_ERROR else Z_OK)
      ensures mode.m.WASH? ==> At() > old(At())
      ensures leave ==> r != Z_STREAM_END
      ensures !leave ==> At() > old(At()) || (At() == old(At()) && Rank(mode.m) < Rank(old(mode).m))
      ensures At() >= old(At())
      ensures r == Z_DATA_ERROR <==> Broken()
    {
      hide Inflater.Core, CodesShow, BytesBits, Inflater.Starved;
      leave := false;
      match mode.m {
        case START => r := StartState(mode.c, r0);
        case LEN(need, tree) => leave, r := LenState(mode.c, need, tree, r0);
        case LENEXT(get, len) => leave, r := LenExtState(mode.c, get, len, r0);
        case DIST(len, need, tree) => leave, r := DistState(mode.c, len, need, tree, r0);
        case DISTEXT(len, get, dist) => leave, r := DistExtState(mode.c, len, get, dist, r0);
        case COPY(len, dist) => leave, r := CopyState(mode.c, len, dist, r0);
        case LIT(lit) => leave, r := LitState(mode.c, lit, r0);
      }
    }

    /** inflate_codes: to the end of the block, or until it needs more input or room. If the fast
        way came to the end of the block, this returns even if there is output left. */
    method InflateCodes(r0: Ret) returns (r: Ret)
      requires Valid() && mode.CODES? && Ready(r0)
      modifies this`nextIn, this`bitb, this`bitk, this`read, this`write, this`availOut, this`output, this`check,
               this`mode, this`last, this`now, this`steps, this`dropped, window
      ensures Valid() && mode.CODES? && mode.c == old(mode).c && old(output) <= output &&
              |output| + availOut == old(|output| + availOut)
      ensures At() >= old(At())
      ensures if r == Z_STREAM_END then mode.m.WASH? && bitk <= 7
              else Stopped() && Halted() && (availOut == 0 || read == write)
      ensures Answers(old(Here()), Here(), endIn, r0, r)
      ensures r == Z_DATA_ERROR <==> Broken()
    {
      hide Inflater.Core, CodesShow, BytesBits, Inflater.Starved, Answers, Inflater.Idle, Inflater.Halted;
      r := r0;
      AnswersFirst(Here(), endIn, r0);
      var leave := false;
      while !mode.m.WASH? && !mode.m.BADCODE?
        invariant Valid() && mode.CODES? && mode.c == old(mode).c && old(output) <= output &&
                  |output| + availOut == old(|output| + availOut)
        invariant At() >= old(At()) && (r == Z_STREAM_END ==> mode.m.WASH?) && (r == Z_DATA_ERROR ==> Broken())
        invariant Answers(old(Here()), Here(), endIn, r0, r) && (!mode.m.WASH? && !mode.m.BADCODE? ==> Ready(r))
        invariant mode.m.WASH? ==> At() > old(At()) || (Idle() && r == r0 && Here() == old(Here()))
        decreases |TheEnv().bits| - At(), Rank(mode.m)
      {
        InStream();
        ghost var q, r1 := Here(), r;
        leave, r := CodesRound(r);
        AnswersOn(old(Here()), q, Here(), endIn, r0, r1, r);
        InStream();
        if leave {
          q, r1 := Here(), r;
          r := FlushAll(r);
          AnswersOn(old(Here()), q, Here(), endIn, r0, r1, r);
          return;
        }
      }
      r := CodesEnd(r, old(Here()), r0);
    }

    /** What follows the last symbol of a block, or an invalid one, in a call that has answered r1 so
        far. */
    method CodesEnd(r1: Ret, ghost p: Spot, ghost r0: Ret) returns (r: Ret)
      requires Valid() && mode.CODES? && (mode.m.WASH? || mode.m.BADCODE?) && (r0 == Z_OK || r0 == Z_BUF_ERROR)
      requires Answers(p, Here(), endIn, r0, r1) && (r1 == Z_DATA_ERROR ==> mode.m.BADCODE?)
      requires mode.m.WASH? ==> p.bits < At() || Idle()
      modifies this`nextIn, this`bitb, this`bitk, this`read, this`write, this`availOut, this`output, this`check
      ensures Valid() && old(output) <= output && |output| + availOut == old(|output| + availOut)
      ensures if r == Z_STREAM_END then mode.m.WASH? && bitk <= 7
              else Stopped() && Halted() && (availOut == 0 || read == write)
      ensures Answers(p, Here(), endIn, r0, r) && (r == Z_DATA_ERROR <==> mode.m.BADCODE?)
    {
      hide Inflater.Core, CodesShow, BytesBits, Inflater.Starved, Answers;
      ghost var q := Here();
      if mode.m.WASH? {
        var done;
        done, r := WashState(r1);
        AnswersAtEnd(p, q, Here(), endIn, r0, r1, r);
        if done { return Z_STREAM_END; }
      } else {
        Bad(TheEnv().bits, mode.c, now, dropped);
        AnswersError(p, q, endIn, r0, r1);
        r := Z_DATA_ERROR;
      }
      ghost var q2, r2 := Here(), r;
      r := FlushAll(r);
      AnswersOn(p, q2, Here(), endIn, r0, r2, r);
    }

    /** inflate_flush in any state of the decoder. */
    method FlushAll(r0: Ret) returns (r: Ret)
      requires Core()
      modifies this`read, this`write, this`availOut, this`output, this`check
      ensures Core() && old(output) <= output && |output| + availOut == old(|output| + availOut)
      ensures availOut == 0 || read == write
      ensures old(availOut) == 0 || old(read == write) ==> read == old(read) && write == old(write)
      ensures |output| == |old(output)| ==> read == old(read) && write == old(write)
      ensures r == if r0 == Z_BUF_ERROR && |output| > |old(output)| then Z_OK else r0
      ensures Answers(old(Here()), Here(), endIn, r0, r)
      ensures old(Halted()) ==> Halted()
    {
      hide WindowOk, ReaderOk, BytesBits, Checksum, Run, StateOk;
      r := Flush(r0);
    }

    /** DUMPBITS, one step of the decoder, and the state that stands for where it leads. */
    method Enter(d: nat, isLast: bool, m: Mode, ghost over: nat)
      requires Core() && d <= bitk && (bitk - d <= 15 || m.BAD?) && StateOk(TheEnv(), now)
      requires Quiet(TheEnv(), now, dropped + d, isLast, over) && Shows(TheEnv().bits, m, Step(TheEnv(), now), over)
      requires !m.STORED? && !m.DRY? && !m.DONE?
      modifies this`bitb, this`bitk, this`last, this`now, this`steps, this`dropped, this`mode
      ensures Valid() && mode == m && At() == old(At()) + d
    {
      hide Inflater.Core, BytesBits, Shows, StateOk, Step;
      Turn(d, isLast, over);
      BitPosition();
      mode := m;
    }

    /** TYPE: the kind of the next block. */
    method TypeState(r0: Ret) returns (leave: bool, r: Ret)
      requires Valid() && mode.TYPE? && Ready(r0)
      modifies this`nextIn, this`bitb, this`bitk, this`mode, this`last, this`now, this`steps, this`dropped
      ensures Valid() && At() >= old(At()) && r != Z_STREAM_END
      ensures leave ==> Stopped() && Halted()
      ensures Answers(old(Here()), Here(), endIn, r0, r) && (!leave ==> r == Z_OK)
      ensures !leave ==> At() > old(At())
      ensures mode.CODES? ==> mode.m.START?
      ensures !mode.DONE?
      ensures r == Z_DATA_ERROR <==> Broken()
    {
      hide ByteBoundary, Inflater.Core, Peek, BytesBits, StateOk, Step, Shows, Matching, StaticL, StaticD,
           Inflater.Starved;
      Shown(TheEnv().bits, mode, now, dropped);
      var ok, t;
      ok, t, r := Fetch(3, r0);
      if !ok { WaitsFor(3); return true, r; }
      leave := OpenBlock(t);
      if leave { r := Z_DATA_ERROR; }
    }

    /** The block that the three bits t announce. */
    method OpenBlock(t: nat) returns (bad: bool)
      requires Fetched() && mode.TYPE? && 3 <= bitk <= 15 && At() + 3 <= |TheEnv().bits| &&
               t == Peek(TheEnv().bits, At(), 3)
      modifies this`bitb, this`bitk, this`mode, this`last, this`now, this`steps, this`dropped
      ensures Valid() && At() > old(At()) && (now.mode.Invalid? <==> bad)
      ensures if bad then mode.BAD? else mode.LENS? || mode.TABLE? || (mode.CODES? && mode.m.START?)
    {
      hide ByteBoundary, Inflater.Core, Peek, BytesBits, StateOk, Step, Shows, Matching, StaticL, StaticD;
      Shown(TheEnv().bits, mode, now, dropped);
      InOrder();
      BitPosition();
      Boundary(now.pos, bitk, nextIn);
      TypeNext(TheEnv(), now, t, bitk, nextIn);
      Showing(TheEnv().bits, Step(TheEnv(), now), 0);
      bad := false;
      if t / 2 == 0 {
        Enter(3 + (bitk - 3) % 8, t % 2 == 1, LENS, 0);
      } else if t / 2 == 1 {
        var c := FixedCodes();
        StartMatches(TheEnv().bits, c, Step(TheEnv(), now));
        Enter(3, t % 2 == 1, CODES(c, START), 0);
      } else if t / 2 == 2 {
        Enter(3, t % 2 == 1, TABLE, 0);
      } else {
        Enter(3, t % 2 == 1, BAD, 0);
        bad := true;
      }
      BrokenIs(TheEnv().bits, mode, now, dropped);
    }

    /** The j bits behind the next i bits. */
    lemma BitsBehind(i: nat, j: nat)
      requires Core() && i + j <= bitk
      ensures At() + i + j <= |TheEnv().bits| && Low(Shr(bitb, i), j) == Peek(TheEnv().bits, At() + i, j)
    {
      hide Holds, Run, BytesBits, WindowOk, Checksum, StateOk;
      DropBits(stream, nextIn, endIn, bitb, bitk, i);
      DropBits(stream, nextIn, endIn, Shr(bitb, i), bitk - i, j);
    }

    /** The bit buffer is empty at a byte boundary. */
    method ClearBits()
      requires Core() && bitk == 32 && StateOk(TheEnv(), now) && dropped == 0 && Quiet(TheEnv(), now, 32, last, 0)
      modifies this`bitb, this`bitk, this`last, this`now, this`steps, this`dropped
      ensures Core() && bitk == 0 && bitb == 0 && now == Step(TheEnv(), old(now)) && last == old(last) && dropped == 0
    {
      hide WindowOk, ReaderOk, BytesBits, Checksum, Run, Step, StateOk;
      BitPosition();
      Turn(32, last, 0);
      BitPosition();
      EmptyBuffer(stream, nextIn, endIn);
      bitb, bitk := 0, 0;
    }

    /** LENS: the length of a stored block and its complement. */
    method LensState(r0: Ret) returns (leave: bool, r: Ret)
      requires Valid() && mode.LENS? && Ready(r0)
      modifies this`nextIn, this`bitb, this`bitk, this`mode, this`last, this`now, this`steps, this`dropped
      ensures Valid() && At() >= old(At()) && r != Z_STREAM_END
      ensures leave ==> Stopped() && Halted()
      ensures Answers(old(Here()), Here(), endIn, r0, r) && (!leave ==> r == Z_OK)
      ensures !leave ==> At() > old(At())
      ensures !mode.DONE? && !mode.CODES?
      ensures r == Z_DATA_ERROR <==> Broken()
    {
      hide Inflater.Core, Peek, BytesBits, Low, Shr, StateOk, Step, Pow2, CodesShow, ByteBoundary;
      InOrder();
      BitPosition();
      SizeAligned(TheEnv(), now, nextIn, bitk);
      var ok, t;
      ok, t, r := Fetch(32, r0);
      if !ok { return true, r; }
      leave := OpenStored();
      if leave { r := Z_DATA_ERROR; }
    }

    /** The length of a stored block is compared with its complement. */
    method OpenStored() returns (bad: bool)
      requires Fetched() && mode.LENS? && bitk >= 32
      modifies this`bitb, this`bitk, this`mode, this`last, this`now, this`steps, this`dropped
      ensures Valid() && At() >= old(At()) && (now.mode.Invalid? <==> bad)
      ensures if bad then mode.BAD? else At() > old(At()) && (mode.STORED? || mode.TYPE? || mode.DRY?)
    {
      hide Inflater.Core, Peek, BytesBits, Low, Shr, StateOk, Step, Pow2, CodesShow, ByteBoundary;
      InOrder();
      BitPosition();
      BitsBehind(0, 16); BitsBehind(16, 16);
      ShrNone(bitb);
      var lo, hi := Low(bitb, 16), Low(Shr(bitb, 16), 16);
      SizeNext(TheEnv(), now, lo, hi);
      bad := 0xffff - hi != lo;
      if bad {
        Turn(0, last, 0);
        mode := BAD;
      } else {
        ClearBits();
        mode := if lo > 0 then STORED(lo) else if last then DRY else TYPE;
      }
    }

    /** One byte of a stored block, straight from the input to the window. */
    method StoredByte(left: nat)
      requires Core() && In(STORED(left)) && bitk == 0 && bitb == 0 && nextIn < endIn
      requires read < w && write <= w && Avail() > 0
      modifies this`nextIn, this`write, this`now, this`steps, window
      ensures Core() && write == old(write) + 1 && nextIn == old(nextIn) + 1 && At() == old(At()) + 8 && dropped == 0
      ensures now.mode == if left > 1 then StoredBytes(left - 1) else NextBlock(last)
    {
      hide WindowOk, ReaderOk, BytesBits, Checksum, Run, StateOk, Peek, Shows, Step;
      InOrder();
      Shown(TheEnv().bits, STORED(left), now, dropped);
      BitPosition();
      StoredOk(TheEnv(), now, stream, nextIn, endIn);
      RunNext(TheEnv(), start, steps);
      var x := stream[nextIn];
      PutByte(window[..], w, now.text, base, |output|, read, write, x);
      WindowBounds(window[..], w, now.text, base, |output|, read, write);
      FrontStays(now.text, x, base, |output|);
      NextByteEmpty(stream, nextIn, endIn, bitb);
      ghost var win := window[..];
      window[write] := x;
      assert window[..] == win[write := x];
      nextIn, write := nextIn + 1, write + 1;
      now, steps := Step(TheEnv(), now), steps + 1;
    }

    /** STORED: as many bytes as there are, or as fit. */
    method StoredState(left0: nat, r0: Ret) returns (leave: bool, r: Ret)
      requires Valid() && mode == STORED(left0) && Ready(r0)
      modifies this`nextIn, this`read, this`write, this`availOut, this`output, this`check, this`mode, this`now,
               this`steps, window
      ensures Valid() && At() >= old(At()) && r != Z_STREAM_END && old(output) <= output &&
              |output| + availOut == old(|output| + availOut)
      ensures leave ==> Stopped() && Halted()
      ensures Answers(old(Here()), Here(), endIn, r0, r) && (!leave ==> r == Z_OK)
      ensures !leave ==> At() > old(At())
      ensures !mode.DONE? && !mode.CODES?
      ensures r == Z_DATA_ERROR <==> Broken()
    {
      hide Inflater.Core, BytesBits, Shows, StateOk, Step, Pow2;
      r := r0;
      Shown(TheEnv().bits, mode, now, dropped);
      BitPosition();
      if nextIn == endIn { return true, r; }
      InOrder();
      LeftIs(TheEnv(), now);
      var ok;
      ok, r := Room(r);
      if !ok { return true, r; }
      StoredPart(left0);
      leave := false;
    }

    /** As much of a stored block as there is input and room in the window for. */
    method StoredPart(left0: nat)
      requires Core() && In(STORED(left0)) && bitk == 0 && bitb == 0 && nextIn < endIn && left0 > 0
      requires read < w && write <= w && Avail() > 0
      modifies this`nextIn, this`write, this`mode, this`now, this`steps, window
      ensures Valid() && At() > old(At()) && nextIn > old(nextIn) && (mode.STORED? || mode.TYPE? || mode.DRY?)
    {
      hide Inflater.Core, BytesBits, Shows, StateOk, Step, Pow2;
      BitPosition();
      var t := Min(left0, Min(endIn - nextIn, Avail()));
      StoredRun(left0, t);
      BitPosition();
      Showing(TheEnv().bits, now, dropped);
      mode := if left0 > t then STORED(left0 - t) else if last then DRY else TYPE;
    }

    /** The copy of t bytes in STORED. */
    method StoredRun(left0: nat, t: nat)
      requires Core() && In(STORED(left0)) && bitk == 0 && bitb == 0 && read < w && write <= w
      requires t <= left0 && left0 > 0 && t <= endIn - nextIn && t <= Avail()
      modifies this`nextIn, this`write, this`now, this`steps, window
      ensures Core() && At() == old(At()) + 8 * t && dropped == 0
      ensures now.mode == if left0 > t then StoredBytes(left0 - t) else NextBlock(last)
    {
      hide Inflater.Core, BytesBits, Shows;
      Shown(TheEnv().bits, STORED(left0), now, dropped);
      var i := 0;
      while i < t
        invariant 0 <= i <= t && Core() && write <= w && t - i <= Avail() && t - i <= endIn - nextIn
        invariant At() == old(At()) + 8 * i && dropped == 0
        invariant now.mode == if left0 > i then StoredBytes(left0 - i) else NextBlock(last)
      {
        InStream();
        Showing(TheEnv().bits, now, dropped);
        StoredByte(left0 - i);
        i := i + 1;
      }
    }

    /** TABLE: the numbers of codes of a dynamic block. */
    method TableState(r0: Ret) returns (leave: bool, r: Ret)
      requires Valid() && mode.TABLE? && Ready(r0)
      modifies this`nextIn, this`bitb, this`bitk, this`mode, this`last, this`now, this`steps, this`dropped
      ensures Valid() && At() >= old(At()) && r != Z_STREAM_END
      ensures leave ==> Stopped() && Halted()
      ensures Answers(old(Here()), Here(), endIn, r0, r) && (!leave ==> r == Z_OK)
      ensures !leave ==> At() > old(At())
      ensures !mode.DONE? && !mode.CODES?
      ensures r == Z_DATA_ERROR <==> Broken()
    {
      hide ByteBoundary, Inflater.Core, Peek, BytesBits, StateOk, Step, Shows, Pow2, Inflater.Starved;
      Shown(TheEnv().bits, mode, now, dropped);
      var ok, t;
      ok, t, r := Fetch(14, r0);
      if !ok { WaitsFor(14); return true, r; }
      InOrder();
      BitPosition();
      CountsNext(TheEnv(), now, t);
      Showing(TheEnv().bits, Step(TheEnv(), now), 0);
      if t % 32 > 29 || t / 32 % 32 > 29 {
        Enter(0, last, BAD, 0);
        BadIsInvalid(TheEnv().bits, now, dropped);
        return true, Z_DATA_ERROR;
      }
      Enter(14, last, BTREE(t, 0, Zeros(258 + t % 32 + t / 32 % 32)), 0);
      leave := false;
    }

    /** BTREE: the lengths of the code length codes. */
    method ReadBitLengths(r0: Ret) returns (leave: bool, r: Ret)
      requires Valid() && mode.BTREE? && Ready(r0)
      modifies this`nextIn, this`bitb, this`bitk, this`mode, this`last, this`now, this`steps, this`dropped
      ensures Valid() && mode.BTREE? && At() >= old(At()) && r != Z_STREAM_END
      ensures Answers(old(Here()), Here(), endIn, r0, r) && if leave then Starved() && Halted()
              else r == Z_OK && mode.index >= 4 + mode.table / 1024
      ensures r != Z_DATA_ERROR
    {
      hide ByteBoundary, Inflater.Core, Peek, BytesBits, StateOk, Step, Shows, Inflater.Starved, Answers,
           Inflater.CodesIdle, LengthWaits;
      r := r0;
      AnswersFirst(Here(), endIn, r0);
      while mode.index < 4 + mode.table / 1024
        invariant Valid() && mode.BTREE? && At() >= old(At()) && Ready(r) &&
                  Answers(old(Here()), Here(), endIn, r0, r)
        decreases 4 + mode.table / 1024 - mode.index
      {
        Shown(TheEnv().bits, mode, now, dropped);
        ghost var q, r1 := Here(), r;
        var ok, x;
        ok, x, r := Fetch(3, r);
        AnswersOn(old(Here()), q, Here(), endIn, r0, r1, r);
        if !ok { WaitsFor(3); return true, r; }
        q := Here();
        TakeBitLength(x);
        AnswersMore(old(Here()), q, Here(), endIn, r0, r);
      }
      leave := false;
    }

    /** One of these lengths. */
    method TakeBitLength(x: nat)
      requires Fetched() && mode.BTREE? && mode.index < 4 + mode.table / 1024 && 3 <= bitk <= 15
      requires At() + 3 <= |TheEnv().bits| && x == Peek(TheEnv().bits, At(), 3)
      modifies this`bitb, this`bitk, this`mode, this`last, this`now, this`steps, this`dropped
      ensures Valid() && mode.BTREE? && mode.table == old(mode).table && mode.index == old(mode).index + 1
      ensures At() == old(At()) + 3
    {
      hide ByteBoundary, Inflater.Core, Peek, BytesBits, StateOk, Step, Shows;
      Shown(TheEnv().bits, mode, now, dropped);
      InOrder();
      BitPosition();
      BitLengthsNext(TheEnv(), now, x);
      Showing(TheEnv().bits, Step(TheEnv(), now), 0);
      Enter(3, last, BTREE(mode.table, mode.index + 1, mode.blens[border[mode.index] := x]), 0);
    }

    /** BTREE: all these lengths, and their table. */
    method BtreeState(r0: Ret) returns (leave: bool, r: Ret)
      requires Valid() && mode.BTREE? && Ready(r0)
      modifies this`nextIn, this`bitb, this`bitk, this`mode, this`last, this`now, this`steps, this`dropped, hufts
      ensures Valid() && At() >= old(At()) && r != Z_STREAM_END
      ensures leave ==> Stopped() && Halted()
      ensures Answers(old(Here()), Here(), endIn, r0, r) && (!leave ==> r == Z_OK)
      ensures !leave ==> mode.DTREE?
      ensures !mode.DONE?
      ensures r == Z_DATA_ERROR <==> Broken()
    {
      hide ByteBoundary, Inflater.Core, BytesBits, StateOk, Step, ZeroRest, BitsMatch, Shows, Usable, SomeCode, Decodes,
           BitsFit, Inflater.Starved;
      leave, r := ReadBitLengths(r0);
      if leave { return; }
      InOrder();
      BitPosition();
      Shown(TheEnv().bits, mode, now, dropped);
      BitLengthsOk(TheEnv(), now);
      var blens := ZeroLengths(mode.blens, mode.index);
      BitLengthsDone(TheEnv(), now);
      Showing(TheEnv().bits, Step(TheEnv(), now), 0);
      var good, tb, bb;
      good, tb, bb := InflateTreesBits(blens[..19], 7, hufts);
      if !good {
        Enter(0, last, BAD, 0);
        BadIsInvalid(TheEnv().bits, now, dropped);
        return true, Z_DATA_ERROR;
      }
      BitsMatched(blens[..19], hufts[..], tb, bb);
      ShowingLengths(TheEnv().bits, Step(TheEnv(), now), BitsTree(hufts[..], bb, tb));
      Enter(0, last, DTREE(mode.table, 0, blens, BitsTree(hufts[..], bb, tb)), 0);
    }

    /** One length code in DTREE: a length, or a repeat code with its count. */
    method LengthRound(r0: Ret) returns (leave: bool, r: Ret)
      requires Valid() && mode.DTREE? && Ready(r0) && mode.index < 258 + mode.table % 32 + mode.table / 32 % 32
      modifies this`nextIn, this`bitb, this`bitk, this`mode, this`last, this`now, this`steps, this`dropped
      ensures Valid() && At() >= old(At()) && r != Z_STREAM_END
      ensures leave ==> Stopped() && Halted()
      ensures Answers(old(Here()), Here(), endIn, r0, r) && (!leave ==> r == Z_OK)
      ensures !leave ==> mode.DTREE? && At() > old(At())
      ensures !mode.DONE?
      ensures r == Z_DATA_ERROR <==> Broken()
    {
      hide ByteBoundary, Inflater.Core, Peek, BytesBits, StateOk, Step, Shows, Fill, BitsMatch, BlCode,
           Inflater.Starved, NextCode, LengthWaits;
      InOrder();
      Shown(TheEnv().bits, mode, now, dropped);
      var tree, index, blens := mode.bits, mode.index, mode.blens;
      CodeLengthsOk(TheEnv(), now, tree);
      ghost var k := bitk;
      var ok, x;
      ok, x, r := Fetch(tree.bb, r0);
      if !ok {
        WaitsFor(tree.bb);
        WaitsBelow(tree, TheEnv().bits, At(), bitk);
        return true, r;
      }
      CodeNext(TheEnv(), now, tree, x);
      var h := tree.hp[tree.tb + x];
      if k >= tree.bb { NextCodeIs(tree, TheEnv().bits, At(), h, k); }
      if h.base < 16 {
        TakeLength(h, x);
        leave := false;
      } else {
        leave, r := RepeatRound(h, x, r);
      }
    }

    /** A length in DTREE. */
    method TakeLength(h: Entry, x: nat)
      requires Fetched() && mode.DTREE? && bitk <= 15 && At() + mode.bits.bb <= |TheEnv().bits|
      requires x == Peek(TheEnv().bits, At(), mode.bits.bb) && mode.bits.bb <= bitk
      requires mode.index < 258 + mode.table % 32 + mode.table / 32 % 32
      requires mode.bits.tb + x < |mode.bits.hp| && h == mode.bits.hp[mode.bits.tb + x] && h.base < 16
      modifies this`bitb, this`bitk, this`mode, this`last, this`now, this`steps, this`dropped
      ensures Valid() && mode.DTREE? && At() > old(At())
    {
      hide ByteBoundary, Inflater.Core, Peek, BytesBits, StateOk, Step, Shows, Fill, BitsMatch, BlCode;
      InOrder();
      Shown(TheEnv().bits, mode, now, dropped);
      var DTREE(table, index, blens, tree) := mode;
      CodeLengthsOk(TheEnv(), now, tree);
      CodeNext(TheEnv(), now, tree, x);
      BitPosition();
      ShowingLengths(TheEnv().bits, Step(TheEnv(), now), tree);
      Enter(h.bits, last, DTREE(table, index + 1, blens[index := h.base], tree), 0);
    }

    /** A repeat code in DTREE. */
    method RepeatRound(h: Entry, x0: nat, r0: Ret) returns (leave: bool, r: Ret)
      requires Fetched() && bitk <= 15 && mode.DTREE? && (r0 == Z_OK || r0 == Z_BUF_ERROR) && 16 <= h.base <= 18 &&
               1 <= h.bits <= 7
      requires StateOk(TheEnv(), now) && mode.index < |mode.blens| && now.mode.CodeLengths?
      requires r0 == Z_OK || bitk < CodeSize(h)
      requires mode.index < 258 + mode.table % 32 + mode.table / 32 % 32
      requires At() + mode.bits.bb <= |TheEnv().bits| && x0 == Peek(TheEnv().bits, At(), mode.bits.bb)
      requires mode.bits.bb <= bitk && mode.bits.tb + x0 < |mode.bits.hp| && h == mode.bits.hp[mode.bits.tb + x0]
      requires BlCode(now.mode.bl, TheEnv().bits, now.pos) == (h.base, h.bits)
      modifies this`nextIn, this`bitb, this`bitk, this`mode, this`last, this`now, this`steps, this`dropped
      ensures Valid() && At() >= old(At()) && r != Z_STREAM_END
      ensures leave ==> Stopped() && Halted()
      ensures Answers(old(Here()), Here(), endIn, r0, r) && (!leave ==> r == Z_OK)
      ensures !leave ==> mode.DTREE? && At() > old(At())
      ensures !mode.DONE?
      ensures r == Z_DATA_ERROR <==> Broken()
    {
      hide Inflater.Core, Peek, BytesBits, StateOk, Step, Shows, Fill, Low, Shr, BitsMatch, BlCode, Inflater.Starved,
           NextCode, LengthWaits;
      Shown(TheEnv().bits, mode, now, dropped);
      var i := if h.base == 18 then 7 else h.base - 14;
      var ok, x;
      ok, x, r := Fetch(h.bits + i, r0);
      if !ok {
        WaitsFor(h.bits + i);
        NextCodeIs(mode.bits, TheEnv().bits, At(), h, bitk);
        return true, r;
      }
      BitsBehind(h.bits, i);
      BitPosition();
      leave := RepeatLengths(h, i, Low(Shr(bitb, h.bits), i));
      if leave { r := Z_DATA_ERROR; }
    }

    /** The lengths that a repeat code with i extra bits stands for. */
    method RepeatLengths(h: Entry, i: nat, extra: nat) returns (bad: bool)
      requires Fetched() && mode.DTREE? && 16 <= h.base <= 18 && 1 <= h.bits <= 7 && i == if h.base == 18 then 7
               else h.base - 14
      requires StateOk(TheEnv(), now) && mode.index < |mode.blens| && now.mode.CodeLengths? && dropped == 0
      requires BlCode(now.mode.bl, TheEnv().bits, now.pos) == (h.base, h.bits) && h.bits + i <= bitk <= h.bits + i + 15
      requires now.pos + h.bits + i <= |TheEnv().bits| && extra == Peek(TheEnv().bits, now.pos + h.bits, i)
      modifies this`bitb, this`bitk, this`mode, this`last, this`now, this`steps, this`dropped
      ensures Valid() && At() == old(At()) + h.bits + i
      ensures if bad then mode.BAD? && now.mode.Invalid? else mode.DTREE?
    {
      hide Inflater.Core, Peek, BytesBits, StateOk, Step, Shows, Fill, BitsMatch, BlCode;
      Shown(TheEnv().bits, mode, now, dropped);
      var DTREE(table, index, blens, tree) := mode;
      BitPosition();
      RepeatNext(TheEnv(), now, h, extra);
      var j := (if h.base == 18 then 11 else 3) + extra;
      bad := index + j > |blens| || (h.base == 16 && index < 1);
      if bad {
        Showing(TheEnv().bits, Step(TheEnv(), now), h.bits + i);
        Enter(h.bits + i, last, BAD, h.bits + i);
        BadIsInvalid(TheEnv().bits, now, dropped);
      } else {
        var filled := Repeat(blens, index, j, if h.base == 16 then blens[index - 1] else 0);
        ShowingLengths(TheEnv().bits, Step(TheEnv(), now), tree);
        Enter(h.bits + i, last, DTREE(table, index + j, filled, tree), 0);
      }
    }

    /** DTREE: all code lengths. */
    method ReadLengths(r0: Ret) returns (leave: bool, r: Ret)
      requires Valid() && mode.DTREE? && Ready(r0)
      modifies this`nextIn, this`bitb, this`bitk, this`mode, this`last, this`now, this`steps, this`dropped
      ensures Valid() && At() >= old(At()) && r != Z_STREAM_END && !mode.DONE?
      ensures Answers(old(Here()), Here(), endIn, r0, r)
      ensures if leave then Stopped() && Halted()
              else r == Z_OK && mode.DTREE? && mode.index >= 258 + mode.table % 32 + mode.table / 32 % 32
      ensures r == Z_DATA_ERROR <==> Broken()
    {
      hide Inflater.Core, Shows, BytesBits, Answers, LengthWaits, Inflater.CodesIdle, Inflater.Starved;
      r := r0;
      AnswersFirst(Here(), endIn, r0);
      while mode.index < 258 + mode.table % 32 + mode.table / 32 % 32
        invariant Valid() && mode.DTREE? && At() >= old(At()) && Ready(r) &&
                  Answers(old(Here()), Here(), endIn, r0, r)
        decreases |TheEnv().bits| - At()
      {
        InStream();
        ghost var q, r1 := Here(), r;
        var stop;
        stop, r := LengthRound(r);
        AnswersOn(old(Here()), q, Here(), endIn, r0, r1, r);
        InStream();
        if stop { return true, r; }
      }
      leave := false;
    }

    /** The tables for literals, lengths and distances. */
    method OpenTrees() returns (bad: bool)
      requires Fetched() && mode.DTREE? && bitk <= 15 && mode.index >= 258 + mode.table % 32 + mode.table / 32 % 32
      modifies this`bitb, this`bitk, this`mode, this`last, this`now, this`steps, this`dropped, hufts
      ensures Valid() && At() >= old(At()) && (now.mode.Invalid? <==> bad)
      ensures if bad then mode.BAD? else mode.CODES? && mode.m.START?
    {
      hide ByteBoundary, Inflater.Core, BytesBits, StateOk, Step, BitsMatch, CodesShow, Matching, Usable, SomeCode;
      InOrder();
      BitPosition();
      CodeLengthsDone(TheEnv(), now);
      var nl, nd := 257 + mode.table % 32, 1 + mode.table / 32 % 32;
      var good, bl, tl, bd, td;
      good, bl, tl, bd, td := InflateTreesDynamic(nl, nd, mode.blens, hufts);
      Turn(0, last, 0);
      bad := !good;
      if bad {
        mode := BAD;
      } else {
        StartMatches(TheEnv().bits, Codes(hufts[..], bl, bd, tl, td), now);
        mode := CODES(Codes(hufts[..], bl, bd, tl, td), START);
      }
    }

    /** DTREE: all code lengths, and the tables they make. */
    method DtreeState(r0: Ret) returns (leave: bool, r: Ret)
      requires Valid() && mode.DTREE? && Ready(r0)
      modifies this`nextIn, this`bitb, this`bitk, this`mode, this`last, this`now, this`steps, this`dropped, hufts
      ensures Valid() && At() >= old(At()) && r != Z_STREAM_END
      ensures leave ==> Stopped() && Halted()
      ensures Answers(old(Here()), Here(), endIn, r0, r) && (!leave ==> r == Z_OK)
      ensures !leave ==> mode.CODES? && mode.m.START?
      ensures !mode.DONE?
      ensures r == Z_DATA_ERROR <==> Broken()
    {
      hide Inflater.Core, BytesBits, Shows, LengthWaits, Inflater.CodesIdle, Inflater.Starved;
      leave, r := ReadLengths(r0);
      if leave { return; }
      leave := OpenTrees();
      if leave { r := Z_DATA_ERROR; }
    }

    /** CODES: the symbols of a block, and behind them the next block. */
    method CodesState(r0: Ret) returns (leave: bool, r: Ret)
      requires Valid() && mode.CODES? && Ready(r0)
      modifies this`nextIn, this`bitb, this`bitk, this`read, this`write, this`availOut, this`output, this`check,
               this`mode, this`last, this`now, this`steps, this`dropped, window
      ensures Valid() && At() >= old(At()) && r != Z_STREAM_END && old(output) <= output &&
              |output| + availOut == old(|output| + availOut)
      ensures leave ==> Stopped() && Halted()
      ensures Answers(old(Here()), Here(), endIn, r0, r) && (!leave ==> r == Z_OK)
      ensures !leave ==> mode.TYPE? || mode.DRY?
      ensures !mode.DONE?
      ensures r == Z_DATA_ERROR <==> Broken()
    {
      hide Inflater.Core, BytesBits, StateOk, Step, CodesShow, Inflater.Starved;
      r := InflateCodes(r0);
      if r != Z_STREAM_END { return true, r; }
      InOrder();
      BitPosition();
      BlockDone(TheEnv(), now, mode.c, dropped);
      Turn(0, last, 0);
      mode := if last then DRY else TYPE;
      leave, r := false, Z_OK;
    }

    /** One round of the loop of inflate_blocks, but for DRY, DONE and BAD. */
    method BlockRound(r0: Ret) returns (leave: bool, r: Ret)
      requires Valid() && !mode.DRY? && !mode.DONE? && !mode.BAD? && Ready(r0)
      modifies this`nextIn, this`bitb, this`bitk, this`read, this`write, this`availOut, this`output, this`check,
               this`mode, this`last, this`now, this`steps, this`dropped, window, hufts
      ensures Valid() && At() >= old(At()) && r != Z_STREAM_END && old(output) <= output &&
              |output| + availOut == old(|output| + availOut)
      ensures leave ==> Stopped() && Halted()
      ensures !leave && mode.CODES? ==> mode.m.START?
      ensures Answers(old(Here()), Here(), endIn, r0, r) && (!leave ==> r == Z_OK)
      ensures !leave ==> At() > old(At()) || BlockRank(mode) < BlockRank(old(mode))
      ensures !mode.DONE?
      ensures r == Z_DATA_ERROR <==> Broken()
    {
      hide Inflater.Core, Shows, Inflater.Starved, BytesBits;
      match mode {
        case TYPE => leave, r := TypeState(r0);
        case LENS => leave, r := LensState(r0);
        case STORED(left) => leave, r := StoredState(left, r0);
        case TABLE => leave, r := TableState(r0);
        case BTREE(_, _, _) => leave, r := BtreeState(r0);
        case DTREE(_, _, _, _) => leave, r := DtreeState(r0);
        case CODES(_, _) => leave, r := CodesState(r0);
      }
    }

    /** inflate_blocks: as far as the input and the room for output go. */
    method InflateBlocks(r0: Ret) returns (r: Ret)
      requires Valid() && (Ready(r0) || mode.DONE?)
      modifies this`nextIn, this`bitb, this`bitk, this`read, this`write, this`availOut, this`output, this`check,
               this`mode, this`last, this`now, this`steps, this`dropped, window, hufts
      ensures Valid() && old(output) <= output && |output| + availOut == old(|output| + availOut)
      ensures r == Z_STREAM_END <==> mode.DONE?
      ensures availOut == 0 || read == write
      ensures mode.DONE? || (Stopped() && Idle())
      ensures r == Z_DATA_ERROR <==> Broken()
      ensures old(mode.DONE?) || Answers(old(Here()), Here(), endIn, r0, r)
    {
      hide Inflater.Core, BytesBits, Shows, Inflater.Starved, Answers, Inflater.CodesIdle, LengthWaits;
      if mode.DONE? {
        r := FlushAll(Z_STREAM_END);
        return;
      }
      r := r0;
      AnswersFirst(Here(), endIn, r0);
      while !mode.DRY? && !mode.BAD?
        invariant Valid() && !mode.DONE? && Ready(r) && Answers(old(Here()), Here(), endIn, r0, r)
        invariant old(output) <= output && |output| + availOut == old(|output| + availOut)
        decreases |TheEnv().bits| - At(), BlockRank(mode)
      {
        InStream();
        ghost var q, r1 := Here(), r;
        var leave;
        leave, r := BlockRound(r);
        AnswersOn(old(Here()), q, Here(), endIn, r0, r1, r);
        InStream();
        if leave {
          q, r1 := Here(), r;
          r := FlushAll(r);
          AnswersOn(old(Here()), q, Here(), endIn, r0, r1, r);
          return;
        }
      }
      r := BlocksEnd(r, old(Here()), r0);
    }

    /** DRY and BAD, in a call that has answered r1 so far. */
    method BlocksEnd(r1: Ret, ghost p: Spot, ghost r0: Ret) returns (r: Ret)
      requires Valid() && (mode.DRY? || mode.BAD?) && Ready(r1) && (r0 == Z_OK || r0 == Z_BUF_ERROR)
      requires Answers(p, Here(), endIn, r0, r1)
      modifies this`mode, this`read, this`write, this`availOut, this`output, this`check
      ensures Valid() && old(output) <= output && |output| + availOut == old(|output| + availOut)
      ensures availOut == 0 || read == write
      ensures if r == Z_STREAM_END then mode.DONE? else !mode.DONE? && Stopped() && Idle()
      ensures Answers(p, Here(), endIn, r0, r) && (r == Z_DATA_ERROR <==> Broken())
    {
      hide Inflater.Core, BytesBits, Shows, Inflater.Starved, Inflater.CodesIdle, LengthWaits;
      r := r1;
      if mode.DRY? {
        r := FlushAll(r);
        if read == write {
          DryIsDone(TheEnv().bits, now, dropped);
          mode := DONE;
          r := Z_STREAM_END;
        }
      } else {
        BadIsInvalid(TheEnv().bits, now, dropped);
        r := Z_DATA_ERROR;
      }
      r := FlushAll(r);
    }

    /** Less than 15 bits of the stream are left. */
    lemma WaitsFor(j: nat)
      requires Core() && nextIn == endIn && dropped + j <= MAX_BITS && At() + j > 8 * nextIn
      ensures Starved()
    {
      hide Inflater.Core;
    }

    lemma InOrder()
      requires Core()
      ensures StateOk(TheEnv(), now) && hufts.Length == MANY && w == window.Length
    {
      hide WindowOk, ReaderOk, BytesBits, Checksum, Step, StateOk;
    }

    lemma BitPosition()
      requires Core()
      ensures bitk <= 8 * nextIn && At() == 8 * nextIn - bitk && bitk <= 32 && nextIn <= endIn <= |stream| &&
              now.last == last
      ensures now.pos <= |TheEnv().bits| == 8 * |stream|
    {
      hide WindowOk, Holds, BytesBits, Checksum, Step, Run, StateOk;
    }

    lemma InStream()
      requires Core()
      ensures At() <= |TheEnv().bits| && now.pos <= |TheEnv().bits|
    {
      hide WindowOk, Holds, BytesBits, Checksum, Step, Run, StateOk;
    }

    lemma WritePointer()
      requires Core()
      ensures read < w && write <= w
    {
      hide ReaderOk, BytesBits, Checksum, Run, StateOk;
    }
  }

  lemma DeliverOk(win: seq<Byte>, w: nat, text: seq<Byte>, base: nat, output: seq<Byte>, read: nat, write: nat, n: nat)
    requires WindowOk(win, w, text, base, |output|, read, write) && output == text[base..base + |output|]
    requires read + n <= (if read <= write then write else w)
    ensures |win| == w && read < w && read + n <= w
    ensures var more := output + win[read..read + n];
            && base + |more| <= |text| && more == text[base..base + |more|]
            && Checksum(more) == Pack(Unpack(Checksum(output)).Over(win[read..read + n]))
            && (read + n < w ==> WindowOk(win, w, text, base, |more|, read + n, write))
            && (read + n == w ==> WindowOk(win, w, text, base, |more|, 0, if write == w then 0 else write))
  {
    hide WindowOk, Checksum, Pack, Unpack, Sums.Over;
    WindowBounds(win, w, text, base, |output|, read, write);
    Delivered(win, w, text, base, |output|, read, write, n);
    ChecksumConcat(output, win[read..read + n]);
    SliceMore(text, base, |output|, n);
  }

  lemma SliceMore(text: seq<Byte>, base: nat, n: nat, m: nat)
    requires base + n + m <= |text|
    ensures text[base..base + n] + text[base + n..base + n + m] == text[base..base + (n + m)]
  {
  }

  /** The tables for the fixed codes. */
  method FixedCodes() returns (c: Codes)
    ensures Matching(c, StaticL(), StaticD())
  {
    hide Matching;
    var fixedMem := new Entry[MANY](_ => Entry(0, 0, 0));
    var bl, bd, tl, td := InflateTreesFixed(fixedMem);
    c := Codes(fixedMem[..FIXEDH], bl, bd, tl, td);
  }

  /** A step of the decoder that puts out nothing and leaves `over` of the d bits that have been
      taken. */
  ghost predicate Quiet(env: Env, s: State, d: nat, isLast: bool, over: nat)
    requires StateOk(env, s)
  {
    var t := Step(env, s);
    t.text == s.text && t.last == isLast && t.pos + over == s.pos + d && t.pos <= |env.bits|
  }

  /** A step of the decoder that puts out the byte x and is shown by the state m. */
  ghost predicate Loud(env: Env, s: State, c: Codes, m: CodesMode, x: Byte, dropped: nat)
    requires StateOk(env, s)
  {
    var t := Step(env, s);
    t.text == s.text + [x] && t.pos == s.pos && t.last == s.last && t.pos <= |env.bits| &&
    CodesShow(env.bits, c, m, t, dropped)
  }

  lemma StartMatches(bits: Bits, c: Codes, s: State)
    requires s.pos <= |bits| && s.mode.InBlock? && s.mode.m.Symbol? && Matching(c, s.mode.ll, s.mode.dl)
    ensures Shows(bits, CODES(c, START), s, 0)
  {
  }

  lemma StartShows(bits: Bits, c: Codes, s: State, dropped: nat)
    requires s.pos <= |bits| && CodesShow(bits, c, START, s, dropped)
    ensures dropped == 0 && CodesShow(bits, c, LEN(c.lbits, c.ltree), s, 0)
  {
    hide Matching, TableFits, OnWay;
    LengthSizes(c, s.mode.ll, s.mode.dl);
    AtRoot(Literals(c.dbits > 0), c.hp, c.ltree, c.lbits, bits, s.pos);
  }

  lemma LenNeed(bits: Bits, c: Codes, need: nat, tree: nat, s: State, dropped: nat)
    requires s.pos <= |bits| && CodesShow(bits, c, LEN(need, tree), s, dropped)
    ensures dropped + need <= MAX_BITS && need <= LOOKAHEAD
  {
    hide Matching, OnWay;
    NeedFits(Literals(c.dbits > 0), c.hp, c.ltree, c.lbits, bits, s.pos, tree, need, dropped);
  }

  lemma DistNeed(bits: Bits, c: Codes, len: nat, need: nat, tree: nat, s: State, dropped: nat)
    requires s.pos <= |bits| && CodesShow(bits, c, DIST(len, need, tree), s, dropped)
    ensures dropped + need <= MAX_BITS && need <= LOOKAHEAD
  {
    hide Matching, OnWay;
    NeedFits(Distances, c.hp, c.dtree, c.dbits, bits, s.pos, tree, need, dropped);
  }

  /** The state of the decoder that a state of inflate_blocks outside a coded block stands for. */
  lemma Shown(bits: Bits, m: Mode, s: State, dropped: nat)
    requires s.pos <= |bits| && Shows(bits, m, s, dropped) && !m.CODES?
    ensures !m.BAD? ==> dropped == 0
    ensures (m.TYPE? ==> s.mode.BlockType?) && (m.LENS? ==> s.mode.StoredSize?) && (m.TABLE? ==> s.mode.TreeCounts?)
    ensures (m.STORED? ==> s.mode == StoredBytes(m.left)) &&
            (m.BTREE? ==> s.mode == BitLengths(m.table, m.index, m.blens))
    ensures m.DTREE? ==>
              s.mode.CodeLengths? && s.mode.table == m.table && s.mode.index == m.index && s.mode.blens == m.blens
    ensures m.DTREE? ==> BitsMatch(m.bits, s.mode.bl)
    ensures m.BAD? ==> s.mode.Invalid?
  {
    hide BitsMatch;
  }

  /** The state of inflate_blocks that stands for a state of the decoder. */
  lemma Showing(bits: Bits, s: State, dropped: nat)
    requires s.pos <= |bits|
    ensures s.mode.Invalid? ==> Shows(bits, BAD, s, dropped)
    ensures s.mode.BlockType? ==> Shows(bits, TYPE, s, 0)
    ensures s.mode.StoredSize? ==> Shows(bits, LENS, s, 0)
    ensures s.mode.StoredBytes? ==> Shows(bits, STORED(s.mode.left), s, 0)
    ensures s.mode.TreeCounts? ==> Shows(bits, TABLE, s, 0)
    ensures s.mode.BitLengths? ==> Shows(bits, BTREE(s.mode.table, s.mode.index, s.mode.blens), s, 0)
    ensures s.mode.Finished? ==> Shows(bits, DRY, s, 0)
  {
  }

  lemma ShowingLengths(bits: Bits, s: State, tree: BitsTree)
    requires s.pos <= |bits| && s.mode.CodeLengths? && BitsMatch(tree, s.mode.bl)
    ensures Shows(bits, DTREE(s.mode.table, s.mode.index, s.mode.blens, tree), s, 0)
  {
    hide BitsMatch;
  }

  lemma TypeShows(bits: Bits, s: State, dropped: nat, text: seq<Byte>)
    requires s.pos <= |bits| && Shows(bits, TYPE, s, dropped)
    ensures Shows(bits, TYPE, s.(text := text), dropped)
  {
  }

  lemma BrokenIs(bits: Bits, m: Mode, s: State, dropped: nat)
    requires s.pos <= |bits| && Shows(bits, m, s, dropped)
    ensures s.mode.Invalid? <==> m.BAD? || (m.CODES? && m.m.BADCODE?)
  {
    hide Matching, BitsMatch, OnWay;
  }

  lemma DryIsDone(bits: Bits, s: State, dropped: nat)
    requires s.pos <= |bits| && Shows(bits, DRY, s, dropped)
    ensures Shows(bits, DONE, s, dropped)
  {
  }

  lemma BadIsInvalid(bits: Bits, s: State, dropped: nat)
    requires s.pos <= |bits| && Shows(bits, BAD, s, dropped)
    ensures s.mode.Invalid?
  {
  }

  lemma Bad(bits: Bits, c: Codes, s: State, dropped: nat)
    requires s.pos <= |bits| && CodesShow(bits, c, BADCODE, s, dropped)
    ensures s.mode.Invalid?
  {
  }

  /** The next entry for a literal or length: a link, or a step of the decoder. */
  lemma LenNext(env: Env, s: State, c: Codes, need: nat, tree: nat, dropped: nat, x: nat)
    requires StateOk(env, s) && CodesShow(env.bits, c, LEN(need, tree), s, dropped)
    requires s.pos + dropped + need <= |env.bits| && x == Peek(env.bits, s.pos + dropped, need)
    ensures tree + x < |c.hp|
    ensures var e := c.hp[tree + x];
            var m := LenMode(e, tree + x);
            && 1 <= e.bits <= need
            && if m.LEN? then CodesShow(env.bits, c, m, s, dropped + e.bits)
               else
                 var over := if m.BADCODE? then dropped + e.bits else 0;
                 Quiet(env, s, dropped + e.bits, s.last, over) && CodesShow(env.bits, c, m, Step(env, s), over)
  {
    hide Matching, Peek, OnWay, HasBit, Walk;
    var kind := Literals(c.dbits > 0);
    OnWayInside(kind, c.hp, c.ltree, c.lbits, env.bits, s.pos, tree, need, dropped);
    NextEntry(kind, c.hp, c.ltree, c.lbits, env.bits, s.pos, tree, need, dropped, x);
    var e := c.hp[tree + x];
    if !Leads(kind, e) { LenLeaf(env, s, c, e, dropped + e.bits); }
  }

  lemma OnWayInside(kind: Kind, hp: seq<Entry>, root: nat, m: nat, bits: Bits, pos: nat, tree: nat, need: nat,
                    dropped: nat)
    requires OnWay(kind, hp, root, m, bits, pos, tree, need, dropped)
    ensures pos + dropped <= |bits|
  {
    hide Walk, TableFits;
  }

  /** The lookup of a literal or length is over. */
  lemma LenLeaf(env: Env, s: State, c: Codes, e: Entry, used: nat)
    requires StateOk(env, s) && s.mode.InBlock? && s.mode.m.Symbol? && Matching(c, s.mode.ll, s.mode.dl)
    requires s.pos + used <= |env.bits| && EntryFits(Literals(c.dbits > 0), e) && !Leads(Literals(c.dbits > 0), e)
    requires Walk(c.hp, c.ltree, c.lbits, Ahead(env.bits, s.pos)) == Found(e.exop, e.base, used)
    ensures var m := LenMode(e, 0);
            var over := if m.BADCODE? then used else 0;
            Quiet(env, s, used, s.last, over) && CodesShow(env.bits, c, m, Step(env, s), over)
  {
    hide Matching, Walk, AfterSymbol, SymbolAt, HasBit;
    LengthFound(c, s.mode.ll, s.mode.dl, env.bits, s.pos, e, used);
  }

  /** The next entry for a distance: a link, or a step of the decoder. */
  lemma DistNext(env: Env, s: State, c: Codes, len: nat, need: nat, tree: nat, dropped: nat, x: nat)
    requires StateOk(env, s) && CodesShow(env.bits, c, DIST(len, need, tree), s, dropped)
    requires s.pos + dropped + need <= |env.bits| && x == Peek(env.bits, s.pos + dropped, need)
    ensures tree + x < |c.hp|
    ensures var e := c.hp[tree + x];
            var m := DistMode(e, tree + x, len);
            && 1 <= e.bits <= need
            && if m.DIST? then CodesShow(env.bits, c, m, s, dropped + e.bits)
               else
                 var over := if m.BADCODE? then dropped + e.bits else 0;
                 Quiet(env, s, dropped + e.bits, s.last, over) && CodesShow(env.bits, c, m, Step(env, s), over)
  {
    hide Matching, Peek, OnWay, HasBit, Walk;
    OnWayInside(Distances, c.hp, c.dtree, c.dbits, env.bits, s.pos, tree, need, dropped);
    NextEntry(Distances, c.hp, c.dtree, c.dbits, env.bits, s.pos, tree, need, dropped, x);
    var e := c.hp[tree + x];
    if !Leads(Distances, e) { DistLeaf(env, s, c, len, e, dropped + e.bits); }
  }

  /** The lookup of a distance is over. */
  lemma DistLeaf(env: Env, s: State, c: Codes, len: nat, e: Entry, used: nat)
    requires StateOk(env, s) && s.mode.InBlock? && s.mode.m == Distance(len) && Matching(c, s.mode.ll, s.mode.dl) &&
             c.dbits > 0
    requires s.pos + used <= |env.bits| && !Leads(Distances, e)
    requires Walk(c.hp, c.dtree, c.dbits, Ahead(env.bits, s.pos)) == Found(e.exop, e.base, used)
    ensures var m := DistMode(e, 0, len);
            var over := if m.BADCODE? then used else 0;
            Quiet(env, s, used, s.last, over) && CodesShow(env.bits, c, m, Step(env, s), over)
  {
    hide Matching, Walk, SymbolAt, HasBit, cpdist, cpdext;
    DistanceFound(c, s.mode.ll, s.mode.dl, env.bits, s.pos, e, used);
  }

  lemma ExtraSmall(env: Env, s: State, c: Codes, m: CodesMode, dropped: nat)
    requires StateOk(env, s) && CodesShow(env.bits, c, m, s, dropped) && (m.LENEXT? || m.DISTEXT?)
    ensures dropped == 0 && m.get <= 15 && (m.LENEXT? ==> m.get <= 5 && m.len <= 258)
  {
    hide Matching;
  }

  lemma CopyOk(env: Env, s: State, c: Codes, len: nat, dist: nat, dropped: nat)
    requires StateOk(env, s) && CodesShow(env.bits, c, COPY(len, dist), s, dropped)
    ensures dist >= 1 && len <= 258
  {
    hide Matching;
  }

  lemma LenExtNext(env: Env, s: State, c: Codes, get: nat, len: nat, x: nat, dropped: nat)
    requires StateOk(env, s) && CodesShow(env.bits, c, LENEXT(get, len), s, dropped)
    requires s.pos + dropped + get <= |env.bits| && x == Peek(env.bits, s.pos + dropped, get)
    ensures dropped == 0 && Quiet(env, s, get, s.last, 0)
    ensures var t := Step(env, s); t.pos <= |env.bits| && CodesShow(env.bits, c, DIST(len + x, c.dbits, c.dtree), t, 0)
  {
    hide Matching, Peek, OnWay, TableFits;
    LengthSizes(c, s.mode.ll, s.mode.dl);
    AtRoot(Distances, c.hp, c.dtree, c.dbits, env.bits, s.pos + get);
    assert s.text + [] == s.text;
  }

  lemma DistExtNext(env: Env, s: State, c: Codes, len: nat, get: nat, dist: nat, x: nat, dropped: nat)
    requires StateOk(env, s) && CodesShow(env.bits, c, DISTEXT(len, get, dist), s, dropped)
    requires s.pos + dropped + get <= |env.bits| && x == Peek(env.bits, s.pos + dropped, get)
    ensures dropped == 0 && Quiet(env, s, get, s.last, 0)
    ensures var t := Step(env, s); t.pos <= |env.bits| && CodesShow(env.bits, c, COPY(len, dist + x), t, 0)
  {
    hide Matching, Peek;
    assert s.text + [] == s.text;
  }

  lemma CopyNext(env: Env, s: State, c: Codes, dist: nat, dropped: nat)
    requires StateOk(env, s) && CodesShow(env.bits, c, COPY(0, dist), s, dropped)
    ensures dropped == 0 && Quiet(env, s, 0, s.last, 0)
    ensures var t := Step(env, s); t.pos <= |env.bits| && CodesShow(env.bits, c, START, t, 0)
  {
    hide Matching, Peek;
    assert s.text + [] == s.text;
  }

  lemma CopyLoud(env: Env, s: State, c: Codes, len: nat, dist: nat, dropped: nat)
    requires StateOk(env, s) && CodesShow(env.bits, c, COPY(len, dist), s, dropped) && len > 0
    ensures Loud(env, s, c, COPY(len - 1, dist), s.text[|s.text| - Back(dist, env.w)], dropped)
  {
    hide Matching, Peek;
  }

  lemma LitLoud(env: Env, s: State, c: Codes, lit: nat, dropped: nat)
    requires StateOk(env, s) && CodesShow(env.bits, c, LIT(lit), s, dropped)
    ensures Loud(env, s, c, START, lit % 0x100, dropped)
  {
    hide Matching, Peek;
  }

  lemma BlockDone(env: Env, s: State, c: Codes, dropped: nat)
    requires StateOk(env, s) && CodesShow(env.bits, c, WASH, s, dropped)
    ensures dropped == 0 && Quiet(env, s, 0, s.last, 0) && Step(env, s).mode == NextBlock(s.last)
  {
    hide Matching, Peek;
  }

  lemma FrontStays(text: seq<Byte>, x: Byte, base: nat, n: nat)
    requires base + n <= |text|
    ensures (text + [x])[base..base + n] == text[base..base + n]
  {
  }

  lemma SourceBelow(p: nat, w: nat)
    requires w > 0
    ensures Slot(p, w) < w
  {
  }

  /** A source before the write pointer needs no wrap. */
  lemma InPlace(s: Inflater, dist: nat, r: nat)
    requires s.Core() && s.write >= dist >= 1 && |s.now.text| >= Back(dist, s.w) &&
             r == Slot(|s.now.text| - Back(dist, s.w), s.w)
    ensures r == s.write - dist
  {
    hide Slot, Back, ReaderOk, Run, StateOk, Checksum, BytesBits, Current;
    SourceIs(|s.now.text|, s.write, dist, s.w);
  }

  /** How the states of inflate_codes follow each other without taking bits. */
  function Rank(m: CodesMode): nat {
    match m
    case LENEXT(_, _) => 6
    case DIST(_, _, _) => 5
    case DISTEXT(_, _, _) => 4
    case COPY(_, _) => 3
    case LIT(_) => 3
    case START => 2
    case LEN(_, _) => 1
    case _ => 0
  }

  lemma RunNext(env: Env, start: State, steps: nat)
    requires StateOk(env, start)
    ensures Run(env, start, steps + 1) == Step(env, Run(env, start, steps)) &&
            StateOk(env, Step(env, Run(env, start, steps)))
  {
    hide Step, StateOk;
    StepOk(env, Run(env, start, steps));
  }

  /** The bits up to the next byte boundary are those left over of the last byte. */
  lemma Boundary(pos: nat, k: nat, nextIn: nat)
    requires k >= 3
    ensures pos == 8 * nextIn - k ==> ByteBoundary(pos + 3) == pos + 3 + (k - 3) % 8
  {
  }

  lemma ShrNone(b: nat)
    ensures Shr(b, 0) == b
  {
  }

  lemma NextByteEmpty(stream: seq<Byte>, nextIn: nat, end: nat, b: nat)
    requires ReaderOk(stream, nextIn, end, b, 0) && nextIn < end
    ensures b == 0 ==> ReaderOk(stream, nextIn + 1, end, b, 0)
  {
  }

  lemma TypeNext(env: Env, s: State, t: nat, k: nat, nextIn: nat)
    requires StateOk(env, s) && s.mode.BlockType? && s.pos + 3 <= |env.bits| && t == Peek(env.bits, s.pos, 3)
    requires k >= 3 && ByteBoundary(s.pos + 3) == s.pos + 3 + (k - 3) % 8
    ensures Quiet(env, s, if t / 2 == 0 then 3 + (k - 3) % 8 else 3, t % 2 == 1, 0)
    ensures Step(env, s).mode ==
            if t / 2 == 0 then StoredSize else if t / 2 == 1 then InBlock(StaticL(), StaticD(), Symbol)
            else if t / 2 == 2 then TreeCounts else Invalid
  {
    hide Peek, ByteBoundary;
  }

  lemma SizeAligned(env: Env, s: State, nextIn: nat, k: nat)
    requires StateOk(env, s) && s.mode.StoredSize? && k <= 8 * nextIn && s.pos == 8 * nextIn - k
    ensures k % 8 == 0
  {
    hide ModeOk;
    assert k == 8 * (nextIn - s.pos / 8);
  }

  lemma WholeBytes(k: nat)
    requires k % 8 == 0 && k < 32
    ensures k <= 24 && (k + 8) % 8 == 0
  {
  }

  lemma SizeNext(env: Env, s: State, lo: nat, hi: nat)
    requires StateOk(env, s) && s.mode.StoredSize? && s.pos + 32 <= |env.bits|
    requires lo == Peek(env.bits, s.pos, 16) && hi == Peek(env.bits, s.pos + 16, 16)
    ensures lo <= 0xffff && hi <= 0xffff
    ensures if 0xffff - hi != lo then Quiet(env, s, 0, s.last, 0) && Step(env, s).mode.Invalid?
            else Quiet(env, s, 32, s.last, 0) && Step(env, s).mode == if lo > 0 then StoredBytes(lo)
                 else NextBlock(s.last)
  {
    hide Peek;
    assert Pow2(8) == 0x100;
    assert Pow2(12) == 0x1000;
    assert Pow2(16) == 0x10000;
  }

  /** The eight bits of a byte are this byte. */
  lemma NextByteIs(stream: seq<Byte>, nextIn: nat)
    requires nextIn < |stream|
    ensures Peek(BytesBits(stream), 8 * nextIn, 8) == stream[nextIn]
  {
    hide Holds, BytesBits, Peek, BitsOf, Low;
    ByteAt(stream, nextIn);
    PeekIsLe(BytesBits(stream), 8 * nextIn, 8);
    LeOfBits(stream[nextIn], 8);
    WordPowers();
    LowBelow(stream[nextIn], 8);
  }

  lemma StoredOk(env: Env, s: State, stream: seq<Byte>, nextIn: nat, end: nat)
    requires env.bits == BytesBits(stream) && s.pos == 8 * nextIn && nextIn < end <= |stream| && s.mode.StoredBytes? &&
             StateOk(env, s)
    ensures s.pos + 8 <= |env.bits|
    ensures var t := Step(env, s);
            && t.text == s.text + [stream[nextIn]] && t.pos == s.pos + 8 && t.last == s.last
            && t.mode == if s.mode.left > 1 then StoredBytes(s.mode.left - 1) else NextBlock(s.last)
  {
    hide BytesBits, Peek, ModeOk, TypeStep, SizeStep, CountsStep, BitLengthsStep, CodeLengthsStep, InBlockStep;
    NextByteIs(stream, nextIn);
    LeftIs(env, s);
  }

  lemma LeftIs(env: Env, s: State)
    requires StateOk(env, s) && s.mode.StoredBytes?
    ensures s.mode.left > 0
  {
  }

  lemma CountsNext(env: Env, s: State, t: nat)
    requires StateOk(env, s) && s.mode.TreeCounts? && s.pos + 14 <= |env.bits| && t == Peek(env.bits, s.pos, 14)
    ensures if t % 32 > 29 || t / 32 % 32 > 29 then Quiet(env, s, 0, s.last, 0) && Step(env, s).mode.Invalid?
            else Quiet(env, s, 14, s.last, 0) &&
                 Step(env, s).mode == BitLengths(t, 0, Zeros(258 + t % 32 + t / 32 % 32))
  {
    hide Peek;
  }

  lemma BitLengthsOk(env: Env, s: State)
    requires StateOk(env, s) && s.mode.BitLengths?
    ensures |s.mode.blens| >= 19
  {
  }

  lemma BitLengthsNext(env: Env, s: State, x: nat)
    requires StateOk(env, s) && s.mode.BitLengths? && s.mode.index < 4 + s.mode.table / 1024
    requires s.pos + 3 <= |env.bits| && x == Peek(env.bits, s.pos, 3)
    ensures s.mode.index < 19 && border[s.mode.index] < 19 <= |s.mode.blens|
    ensures Quiet(env, s, 3, s.last, 0)
    ensures Step(env, s).mode == BitLengths(s.mode.table, s.mode.index + 1, s.mode.blens[border[s.mode.index] := x])
  {
    hide Peek;
  }

  lemma BitLengthsDone(env: Env, s: State)
    requires StateOk(env, s) && s.mode.BitLengths? && s.mode.index >= 4 + s.mode.table / 1024
    ensures |s.mode.blens| >= 19 && Quiet(env, s, 0, s.last, 0)
    ensures var all := ZeroRest(s.mode.blens, s.mode.index);
            && (forall i :: 0 <= i < 19 ==> all[..19][i] <= 7)
            && Step(env, s).mode == if Usable(all[..19]) && SomeCode(all[..19])
               then CodeLengths(s.mode.table, 0, all, all[..19]) else Invalid
  {
    hide ZeroRest, Usable, SomeCode;
    ZeroOk(s.mode.blens, s.mode.index, 7);
  }

  lemma BitsMatched(bl: seq<nat>, hp: seq<Entry>, tb: nat, m: nat)
    requires |bl| == BITS_LENGTHS && (forall i :: 0 <= i < |bl| ==> bl[i] <= 7) && Usable(bl) && SomeCode(bl)
    requires BitsFit(BitsTree(hp, m, tb)) && Decodes(hp, tb, m, bl, BITS_LENGTHS, [], [])
    ensures BitsMatch(BitsTree(hp, m, tb), bl)
  {
    hide Decodes, BitsFit, Usable, SomeCode;
  }

  /** BTREE: zero for the code length codes that were not sent. */
  method ZeroLengths(blens0: seq<nat>, index0: nat) returns (blens: seq<nat>)
    requires |blens0| >= 19
    ensures blens == ZeroRest(blens0, index0)
  {
    blens := blens0;
    var index := index0;
    while index < 19
      invariant |blens| == |blens0| && ZeroRest(blens, index) == ZeroRest(blens0, index0)
      decreases 19 - index
    {
      blens := blens[border[index] := 0];
      index := index + 1;
    }
  }

  lemma CodeLengthsOk(env: Env, s: State, tree: BitsTree)
    requires StateOk(env, s) && s.mode.CodeLengths? && BitsMatch(tree, s.mode.bl)
    ensures |s.mode.blens| == 258 + s.mode.table % 32 + s.mode.table / 32 % 32 && s.mode.index <= |s.mode.blens| &&
            tree.bb <= 7
  {
    hide Decodes, Usable, SomeCode;
  }

  /** The next code length code. */
  lemma CodeNext(env: Env, s: State, tree: BitsTree, x: nat)
    requires StateOk(env, s) && s.mode.CodeLengths? && s.mode.index < |s.mode.blens| && BitsMatch(tree, s.mode.bl)
    requires s.pos + tree.bb <= |env.bits| && x == Peek(env.bits, s.pos, tree.bb)
    ensures tree.tb + x < |tree.hp|
    ensures var h := tree.hp[tree.tb + x];
            && 1 <= h.bits <= tree.bb <= 7 && h.base <= 18 && BlCode(s.mode.bl, env.bits, s.pos) == (h.base, h.bits)
            && (h.base < 16 ==>
                  && Quiet(env, s, h.bits, s.last, 0)
                  && Step(env, s).mode ==
                     CodeLengths(s.mode.table, s.mode.index + 1, s.mode.blens[s.mode.index := h.base], s.mode.bl))
  {
    hide Peek, BitsMatch, Usable, SomeCode, BlCode, RepeatStep;
    BitsEntry(tree, s.mode.bl, env.bits, s.pos, x);
  }

  lemma RepeatNext(env: Env, s: State, h: Entry, extra: nat)
    requires StateOk(env, s) && s.mode.CodeLengths? && s.mode.index < |s.mode.blens| && 16 <= h.base <= 18
    requires BlCode(s.mode.bl, env.bits, s.pos) == (h.base, h.bits)
    requires var i := if h.base == 18 then 7 else h.base - 14;
             s.pos + h.bits + i <= |env.bits| && extra == Peek(env.bits, s.pos + h.bits, i)
    ensures var i, j := if h.base == 18 then 7 else h.base - 14, (if h.base == 18 then 11 else 3) + extra;
            var index, blens := s.mode.index, s.mode.blens;
            if index + j > |blens| || (h.base == 16 && index < 1) then
              Quiet(env, s, h.bits + i, s.last, h.bits + i) && Step(env, s).mode.Invalid?
            else
              && Quiet(env, s, h.bits + i, s.last, 0)
              && Step(env, s).mode ==
                 CodeLengths(s.mode.table, index + j,
                   Fill(blens, index, j, if h.base == 16 then blens[index - 1] else 0), s.mode.bl)
  {
    hide Peek, Usable, SomeCode, BlCode, Fill;
  }

  /** DTREE: j times the length c. */
  method Repeat(blens0: seq<nat>, i0: nat, j0: nat, c: nat) returns (blens: seq<nat>)
    requires i0 + j0 <= |blens0|
    ensures blens == Fill(blens0, i0, j0, c)
  {
    blens := blens0;
    var i, j := i0, j0;
    while j > 0
      invariant |blens| == |blens0| && i + j == i0 + j0 && Fill(blens, i, j, c) == Fill(blens0, i0, j0, c)
    {
      blens := blens[i := c];
      i, j := i + 1, j - 1;
    }
  }

  lemma Inside(env: Env, s: State)
    requires StateOk(env, s)
    ensures s.pos <= |env.bits|
  {
  }

  lemma CodeLengthsDone(env: Env, s: State)
    requires StateOk(env, s) && s.mode.CodeLengths? && s.mode.index >= 258 + s.mode.table % 32 + s.mode.table / 32 % 32
    ensures var nl, nd, blens := 257 + s.mode.table % 32, 1 + s.mode.table / 32 % 32, s.mode.blens;
            && LITERALS <= nl <= MAX_LITERAL_CODES && nd <= MAX_DISTANCE_CODES && |blens| == nl + nd && Lengths(blens)
            && Quiet(env, s, 0, s.last, 0)
            && Step(env, s).mode == if Accepted(nl, blens) then InBlock(blens[..nl], blens[nl..], Symbol) else Invalid
  {
    hide Usable, SomeCode, Accepted;
  }

  /** How the states of inflate_blocks follow each other without taking bits. */
  function BlockRank(m: Mode): nat {
    match m
    case BTREE(_, _, _) => 4
    case DTREE(_, _, _, _) => 3
    case CODES(_, _) => 2
    case TYPE => 1
    case DRY => 1
    case _ => 0
  }

  /** zmemcpy(s->window, d, n). */
  method CopyIn(window: array<Byte>, d: seq<Byte>)
    requires |d| < window.Length
    modifies window
    ensures WindowOk(window[..], window.Length, old(window[..]) + d, window.Length + |d|, 0, |d|, |d|)
  {
    hide WindowOk;
    ghost var init, w := window[..], window.Length;
    var i := 0;
    FreshWindow(init, w);
    assert init + d[..0] == init;
    while i < |d|
      invariant 0 <= i <= |d| && WindowOk(window[..], w, init + d[..i], w, 0, 0, i)
    {
      PutByte(window[..], w, init + d[..i], w, 0, 0, i, d[i]);
      assert init + d[..i] + [d[i]] == init + d[..i + 1];
      ghost var win := window[..];
      window[i] := d[i];
      assert window[..] == win[i := d[i]];
      i := i + 1;
    }
    assert d[..|d|] == d;
    Delivered(window[..], w, init + d, w, 0, 0, |d|, |d|);
    NewStart(window[..], w, init + d, |d|);
  }

  lemma FreshStart(env: Env, s: State)
    requires s.mode.BlockType? && s.pos == 0 && 0 < env.w <= |s.text| && |env.bits| % 8 == 0
    ensures StateOk(env, s) && Run(env, s, 0) == s
  {
  }

  lemma FreshWindow(win: seq<Byte>, w: nat)
    requires |win| == w > 0
    ensures WindowOk(win, w, win, w, 0, 0, 0)
  {
    SlotNext(w - 1, w);
  }

  lemma NewStart(win: seq<Byte>, w: nat, text: seq<Byte>, n: nat)
    requires WindowOk(win, w, text, w, n, n, n) && n < w
    ensures WindowOk(win, w, text, w + n, 0, n, n)
  {
    hide Slot;
  }

  lemma LaterStart(env: Env, s: State, pos: nat)
    requires StateOk(env, s) && s.mode.BlockType? && pos <= |env.bits|
    ensures StateOk(env, s.(pos := pos)) && Run(env, s.(pos := pos), 0) == s.(pos := pos) && Run(env, s, 0) == s
  {
  }

  lemma LongerStart(env: Env, s: State, text: seq<Byte>)
    requires StateOk(env, s) && |text| >= |s.text|
    ensures StateOk(env, s.(text := text)) && Run(env, s.(text := text), 0) == s.(text := text)
  {
  }

  /** However the same stream is cut into pieces and whatever room each call had, what has been
      put out is the beginning of one and the same text. */
  lemma OneOutput(a: Inflater, b: Inflater)
    requires a.Valid() && b.Valid() && a.stream == b.stream && a.w == b.w
    requires a.start == b.start && a.base == b.base
    ensures |a.output| <= |b.output| ==> a.output <= b.output
  {
    hide StateOk, BytesBits, Holds, Checksum, WindowOk, Run;
    if a.steps <= b.steps {
      RunExtends(a.TheEnv(), a.start, a.steps, b.steps);
    } else {
      RunExtends(a.TheEnv(), a.start, b.steps, a.steps);
    }
  }
}
