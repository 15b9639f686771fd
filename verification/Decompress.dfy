/** The outer layer of decompression (zlib/inflate.c): header, preset dictionary, blocks, checksum. */
module Decompression {
  import opened Arith
  import opened StringHash
  import Decoder
  import opened Adler
  import Inflating

  datatype Ret = Z_OK | Z_STREAM_END | Z_NEED_DICT | Z_STREAM_ERROR | Z_DATA_ERROR | Z_BUF_ERROR

  /** inflate_mode. DICT and CHECK have the number of bytes to go and the value so far. */
  datatype Mode =
    | METHOD
    | FLAG(kind: nat)
    | DICT(left: nat, need: nat)
    | DICT0
    | BLOCKS
    | CHECK(left: nat, was: nat, need: nat)
    | DONE
    | BAD

  function Times(b: nat, n: nat): nat { b * n }

  /** The first k bytes of a big-endian word of 32 bits at place `at`, the others taken as zero. */
  function Partial(s: seq<Byte>, at: nat, k: nat): nat
    requires at + k <= |s| && k <= 4
  {
    (if k > 0 then Times(s[at], 0x1000000) else 0) + (if k > 1 then Times(s[at + 1], 0x10000) else 0) +
    (if k > 2 then Times(s[at + 2], 0x100) else 0) + (if k > 3 then Times(s[at + 3], 1) else 0)
  }

  function Place(left: nat): nat {
    if left == 4 then 0x1000000 else if left == 3 then 0x10000 else if left == 2 then 0x100 else 1
  }

  lemma NextByte(s: seq<Byte>, at: nat, left: nat)
    requires 1 <= left <= 4 && at + 5 - left <= |s|
    ensures Partial(s, at, 5 - left) == Partial(s, at, 4 - left) + Times(s[at + 4 - left], Place(left))
  {
  }

  /** Method 8 with a window that is not too large. */
  predicate MethodOk(m: nat, wbits: nat) { m % 16 == 8 && m / 16 + 8 <= wbits }

  /** A header that inflate accepts (section 2.2 of RFC 1950). */
  predicate HeaderOk(s: seq<Byte>, wbits: nat) {
    |s| >= 2 && MethodOk(s[0], wbits) && (Times(s[0], 0x100) + s[1]) % 31 == 0
  }

  /** The header announces a preset dictionary. */
  predicate HasDict(s: seq<Byte>)
    requires |s| >= 2
  {
    s[1] / 0x20 % 2 == 1
  }

  /** What inflate keeps of a preset dictionary. */
  function Tail(dictionary: seq<Byte>, w: nat): seq<Byte>
    requires w > 0
  {
    if |dictionary| >= w then dictionary[|dictionary| - (w - 1)..] else dictionary
  }

  /** The answer r of a call that is at q and was at p first: f if there was progress (with input for it,
      or output), and Z_BUF_ERROR if not. */
  predicate Tells(p: Inflating.Spot, q: Inflating.Spot, endIn: nat, f: Ret, r: Ret) {
    && Inflating.NotBehind(p, q)
    && r == (if Inflating.Moved(p, q) then f else Z_BUF_ERROR)
    && (Inflating.Moved(p, q) ==> p.next < endIn || p.bytes < q.bytes)
  }

  lemma TellsByte(p: Inflating.Spot, q: Inflating.Spot, s: Inflating.Spot, endIn: nat, f: Ret, r: Ret)
    requires Tells(p, q, endIn, f, r) && q.next < endIn && q.bits <= s.bits && q.bytes == s.bytes &&
             s.next == q.next + 1
    ensures Tells(p, s, endIn, f, f)
  {
  }

  lemma TellsBlocks(p: Inflating.Spot, q: Inflating.Spot, s: Inflating.Spot, t: Inflating.Spot, endIn: nat, f: Ret,
                    r: Ret, b0: Inflating.Ret, b: Inflating.Ret)
    requires Tells(p, q, endIn, f, r) && (f.Z_OK? || f.Z_BUF_ERROR?)
    requires b0 == (if r.Z_OK? then Inflating.Z_OK else Inflating.Z_BUF_ERROR) && Inflating.Answers(q, s, endIn, b0, b)
    requires t == s.(bits := 8 * s.next) && s.bits <= 8 * s.next
    ensures Inflating.NotBehind(q, t)
    ensures b.Z_OK? ==> Tells(p, s, endIn, f, f)
    ensures b.Z_BUF_ERROR? ==> Tells(p, s, endIn, f, Z_BUF_ERROR)
    ensures b.Z_STREAM_END? ==> Tells(p, t, endIn, f, f)
  {
  }

  class Decompressor {
    const blocks: Inflating.Inflater
    const nowrap: bool
    const wbits: nat
    var mode: Mode
    var nextIn: nat
    var adler: nat
    ghost var init: seq<Byte>
    ghost var dictionary: seq<Byte>

    /** The blocks have not been touched. */
    ghost predicate Waiting()
      reads this`init, blocks, blocks.window
    {
      && blocks.Valid() && blocks.mode.TYPE? && blocks.steps == 0 && blocks.bitk == 0
      && blocks.output == [] && blocks.read == blocks.write == 0 && blocks.base == blocks.w && blocks.w == |init|
      && init == blocks.window[..] && blocks.start == Decoder.State(Decoder.BlockType, false, 0, init)
    }

    /** How many bytes come before the blocks. */
    function Head(): nat
      requires nowrap || |blocks.stream| >= 2
    {
      if nowrap then 0 else if HasDict(blocks.stream) then 6 else 2
    }

    /** The blocks are read behind an acceptable header, with the dictionary that it asks for. */
    ghost predicate Begun()
      reads this`init, this`dictionary, blocks`start, blocks`base
    {
      && (nowrap || HeaderOk(blocks.stream, wbits)) && Head() <= |blocks.stream| && blocks.w == |init| > 0
      && (if Head() == 6 then Checksum(dictionary) == Partial(blocks.stream, 2, 4) else dictionary == [])
      && blocks.start == Decoder.State(Decoder.BlockType, false, 8 * Head(), init + Tail(dictionary, blocks.w))
      && blocks.base == blocks.w + |Tail(dictionary, blocks.w)|
    }

    /** The blocks are done, and k bytes of the checksum have been read. */
    ghost predicate Checking(k: nat)
      reads this`init, this`dictionary, this`nextIn, blocks, blocks.window
    {
      && Begun() && blocks.Valid() && blocks.mode.DONE? && blocks.read == blocks.write &&
         nextIn == blocks.nextIn + k <= |blocks.stream|
    }

    ghost predicate Valid()
      reads this, blocks, blocks.window
    {
      && blocks.hufts as object != blocks.window && nextIn <= |blocks.stream| && 8 <= wbits <= 15 &&
         blocks.w == Pow2(wbits)
      && match mode
         case METHOD => !nowrap && Waiting() && nextIn == 0
         case FLAG(m) => !nowrap && Waiting() && nextIn == 1 && m == blocks.stream[0] && MethodOk(m, wbits)
         case DICT(left, need) =>
           && !nowrap && Waiting() && 1 <= left <= 4 && nextIn == 6 - left && HeaderOk(blocks.stream, wbits) &&
              HasDict(blocks.stream)
           && need == Partial(blocks.stream, 2, 4 - left)
         case DICT0 =>
           && !nowrap && Waiting() && nextIn == 6 && HeaderOk(blocks.stream, wbits) && HasDict(blocks.stream)
           && adler == Partial(blocks.stream, 2, 4)
         case BLOCKS => Begun() && blocks.Valid() && blocks.Idle() && nextIn == blocks.nextIn
         case CHECK(left, was, need) =>
           && !nowrap && 1 <= left <= 4 && Checking(4 - left) && was == blocks.check &&
              need == Partial(blocks.stream, blocks.nextIn, 4 - left)
         case DONE =>
           Checking(if nowrap then 0 else 4) && (!nowrap ==> Partial(blocks.stream, blocks.nextIn, 4) == blocks.check)
         case BAD => true
    }

    /** How far the stream has been read, and how much has been put out. */
    ghost function Here(): Inflating.Spot
      reads this`mode, this`nextIn, blocks`now, blocks`dropped, blocks`output
    {
      Inflating.Spot(if mode.BLOCKS? then blocks.At() else 8 * nextIn, |blocks.output|, nextIn)
    }

    /** inflateInit2. What is in the window at first is not known. */
    constructor (stream: seq<Byte>, wbits: nat, nowrap: bool, window: array<Byte>)
      requires 8 <= wbits <= 15 && window.Length == Pow2(wbits)
      ensures Valid() && blocks.stream == stream && this.wbits == wbits && this.nowrap == nowrap &&
              blocks.window == window
      ensures nextIn == 0 && blocks.output == [] && dictionary == [] && blocks.start.pos == 0 && fresh(blocks) &&
              fresh(blocks.hufts)
      ensures mode == if nowrap then BLOCKS else METHOD
    {
      this.wbits, this.nowrap := wbits, nowrap;
      blocks := new Inflating.Inflater(stream, window);
      mode, nextIn, adler := if nowrap then BLOCKS else METHOD, 0, 1;
      init, dictionary := window[..], [];
      new;
      hide Inflating.Inflater.Valid, Checksum, Pow2, Decompressor.Valid;
      Pow2Positive(wbits);
      FreshOk();
    }

    lemma FreshOk()
      requires Waiting() && nextIn == blocks.nextIn == 0 && 8 <= wbits <= 15 && blocks.w == Pow2(wbits) > 0 &&
               dictionary == []
      requires blocks.hufts as object != blocks.window && mode == if nowrap then BLOCKS else METHOD
      ensures Valid()
    {
      hide Inflating.Inflater.Valid, Checksum, Pow2, Partial, HeaderOk, HasDict;
      assert init + [] == init;
    }

    /** A byte of the header or the checksum, if there is one. */
    method Take(endIn: nat) returns (b: Byte)
      requires nextIn < endIn <= |blocks.stream|
      modifies this`nextIn
      ensures b == blocks.stream[old(nextIn)] && nextIn == old(nextIn) + 1
    {
      b := blocks.stream[nextIn];
      nextIn := nextIn + 1;
    }

    /** METHOD and FLAG. */
    method HeaderState(endIn: nat)
      requires Valid() && (mode.METHOD? || mode.FLAG?) && nextIn < endIn <= |blocks.stream|
      modifies this`mode, this`nextIn, this`dictionary, blocks`nextIn, blocks`endIn, blocks`bitb, blocks`start,
               blocks`now
      ensures Valid() && nextIn == old(nextIn) + 1 && blocks.output == old(blocks.output)
      ensures mode.FLAG? || mode.BLOCKS? || mode.DICT? || mode.BAD?
      ensures (mode.BAD? ==> Faulty()) && Rank(mode) < Rank(old(mode))
      ensures dictionary == old(dictionary) || dictionary == []
      ensures if mode.BLOCKS? then |blocks.stream| >= 2 && !HasDict(blocks.stream) && blocks.At() == 8 * nextIn
              else blocks.start == old(blocks.start)
    {
      hide Inflating.Inflater.Valid, Checksum;
      var b := Take(endIn);
      if mode.METHOD? {
        mode := if b % 0x10 != 8 || b / 0x10 + 8 > wbits then BAD else FLAG(b);
      } else if (Times(mode.kind, 0x100) + b) % 31 != 0 {
        mode := BAD;
      } else if b / 0x20 % 2 == 0 {
        mode := BLOCKS;
        dictionary := [];
        UntouchedWindow();
        blocks.Begin(2);
        assert init + [] == init;
      } else {
        mode := DICT(4, 0);
      }
    }

    /** DICT4 to DICT1. */
    method DictState(endIn: nat)
      requires Valid() && mode.DICT? && nextIn < endIn <= |blocks.stream|
      modifies this`mode, this`nextIn, this`adler
      ensures Valid() && nextIn == old(nextIn) + 1 && (mode.DICT? || mode.DICT0?) && Rank(mode) < Rank(old(mode))
    {
      hide Inflating.Inflater.Valid, Checksum;
      NextByte(blocks.stream, 2, mode.left);
      var b := Take(endIn);
      var need := mode.need + Times(b, Place(mode.left));
      if mode.left > 1 {
        mode := DICT(mode.left - 1, need);
      } else {
        adler := need;
        mode := DICT0;
      }
    }

    /** CHECK4 to CHECK1: the checksum of the output against that of the stream. */
    method CheckState(endIn: nat)
      requires Valid() && mode.CHECK? && nextIn < endIn <= |blocks.stream|
      modifies this`mode, this`nextIn
      ensures Valid() && nextIn == old(nextIn) + 1 && (mode.CHECK? || mode.DONE? || mode.BAD?)
      ensures (mode.BAD? ==> Faulty()) && Rank(mode) < Rank(old(mode))
    {
      hide Inflating.Inflater.Valid, Checksum, Partial;
      NextByte(blocks.stream, blocks.nextIn, mode.left);
      var b := Take(endIn);
      var need := mode.need + Times(b, Place(mode.left));
      if mode.left > 1 {
        mode := CHECK(mode.left - 1, mode.was, need);
      } else {
        mode := if mode.was != need then BAD else DONE;
      }
    }

    /** The modes that take one byte of the input. */
    method ByteState(endIn: nat)
      requires Valid() && (mode.METHOD? || mode.FLAG? || mode.DICT? || mode.CHECK?) && nextIn < endIn <= |blocks.stream|
      modifies this`mode, this`nextIn, this`adler, this`dictionary, blocks`nextIn, blocks`endIn, blocks`bitb,
               blocks`start, blocks`now
      ensures Valid() && nextIn == old(nextIn) + 1 && blocks.output == old(blocks.output)
      ensures (mode.BAD? ==> Faulty()) && Rank(mode) < Rank(old(mode))
      ensures old(mode.CHECK?) ==> (mode.CHECK? || mode.DONE? || mode.BAD?) && dictionary == old(dictionary)
      ensures !old(mode.CHECK?) ==> !mode.CHECK? && !mode.DONE? && (dictionary == old(dictionary) || dictionary == [])
      ensures mode.DICT0? ==> old(mode.DICT?)
      ensures if mode.BLOCKS? then |blocks.stream| >= 2 && !HasDict(blocks.stream) && blocks.At() == 8 * nextIn
              else blocks.start == old(blocks.start)
    {
      hide Decompressor.Valid, Decompressor.Faulty, Decompressor.Begun, HasDict, Inflating.Inflater.Valid;
      if mode.METHOD? || mode.FLAG? {
        HeaderState(endIn);
      } else if mode.DICT? {
        DictState(endIn);
      } else {
        CheckState(endIn);
      }
    }

    /** A dictionary was needed and has not been set. */
    method Refuse()
      requires Valid() && mode.DICT0?
      modifies this`mode
      ensures Valid() && mode.BAD?
    {
      hide Inflating.Inflater.Valid, Checksum, Partial, HeaderOk, Decompressor.Begun, Decompressor.Waiting,
           Decompressor.Checking;
      mode := BAD;
    }

    /** inflateSetDictionary. */
    method SetDictionary(dict: seq<Byte>) returns (r: Ret)
      requires Valid()
      modifies this`mode, this`adler, this`dictionary, blocks, blocks.window
      ensures Valid() && nextIn == old(nextIn) && blocks.output == old(blocks.output)
      ensures !old(mode.DICT0?) ==> r == Z_STREAM_ERROR && mode == old(mode)
      ensures old(mode.DICT0?) ==>
                (r == Z_OK <==> Checksum(dict) == Partial(blocks.stream, 2, 4)) &&
                 (r == Z_OK || (r == Z_DATA_ERROR && mode.DICT0?))
      ensures r == Z_OK ==> mode.BLOCKS? && dictionary == dict && init == old(init)
    {
      hide Inflating.Inflater.Valid, Checksum, Partial, Pack, Unpack, Sums.Over;
      if !mode.DICT0? { return Z_STREAM_ERROR; }
      ChecksumNone();
      var check := Adler32(1, dict);
      ChecksumMore([], dict, check);
      assert [] + dict == dict;
      if check != adler { return Z_DATA_ERROR; }
      adler := 1;
      UntouchedWindow();
      blocks.SetDictionary(Tail(dict, blocks.w));
      blocks.Begin(6);
      dictionary := dict;
      mode := BLOCKS;
      return Z_OK;
    }

    /** Why a stream is refused: its header, its blocks, or its checksum. */
    ghost predicate Faulty()
      reads this`init, this`dictionary, blocks, blocks.window
    {
      || (!nowrap && !HeaderOk(blocks.stream, wbits) && |blocks.stream| > 0)
      || (Begun() && blocks.Valid() && blocks.now.mode.Invalid?)
      || (!nowrap && Begun() && blocks.Valid() && blocks.mode.DONE? && blocks.nextIn + 4 <= |blocks.stream| &&
          Partial(blocks.stream, blocks.nextIn, 4) != blocks.check)
    }

    /** Input or room is missing. */
    ghost predicate Waits(endIn: nat, full: bool)
      reads this`mode, this`nextIn, blocks
    {
      if mode.BLOCKS? then blocks.endIn == endIn && if blocks.read != blocks.write then full else blocks.Starved()
      else nextIn == endIn
    }

    /** BLOCKS. */
    method BlocksState(endIn: nat, room: nat, f: Ret, r0: Ret, ghost p: Inflating.Spot) returns (leave: bool, r: Ret)
      requires Valid() && mode.BLOCKS? && nextIn <= endIn <= |blocks.stream| && (r0.Z_OK? || r0.Z_BUF_ERROR?) &&
               (f.Z_OK? || f.Z_BUF_ERROR?) && Tells(p, Here(), endIn, f, r0)
      modifies this`mode, this`nextIn, blocks, blocks.window, blocks.hufts
      ensures Valid() && nextIn <= endIn
      ensures old(blocks.output) <= blocks.output && |blocks.output| <= |old(blocks.output)| + room
      ensures if leave then mode.BLOCKS? && (r.Z_OK? || r.Z_BUF_ERROR?)
              else r == f && (mode.CHECK? || mode.DONE? || mode.BAD?) && Rank(mode) < Rank(old(mode))
      ensures leave ==> Waits(endIn, |blocks.output| == |old(blocks.output)| + room)
      ensures leave ==> nextIn == endIn || |blocks.output| == |old(blocks.output)| + room
      ensures !mode.BAD? ==> Tells(p, Here(), endIn, f, r)
      ensures (mode.BAD? ==> Faulty()) && blocks.start == old(blocks.start)
    {
      hide Inflating.Inflater.Valid, Checksum, Inflating.Inflater.Starved, Tells, Inflating.Answers,
           Inflating.Inflater.Core;
      ghost var q := Here();
      var b0 := if r0.Z_OK? then Inflating.Z_OK else Inflating.Z_BUF_ERROR;
      var b := blocks.Call(endIn - nextIn, room, b0);
      nextIn := blocks.nextIn;
      Positions();
      TellsBlocks(p, q, blocks.Here(), blocks.Here().(bits := 8 * nextIn), endIn, f, r0, b0, b);
      r := f;
      leave := false;
      if b.Z_DATA_ERROR? {
        mode := BAD;
      } else if b.Z_STREAM_END? {
        BlocksDone();
        mode := if nowrap then DONE else CHECK(4, blocks.check, 0);
      } else {
        leave := true;
        if b.Z_BUF_ERROR? { r := Z_BUF_ERROR; }
      }
    }

    lemma Positions()
      requires blocks.Valid()
      ensures blocks.At() <= 8 * blocks.nextIn && (blocks.Starved() ==> blocks.nextIn == blocks.endIn)
    {
      hide Inflating.Inflater.Core, Inflating.Inflater.In;
      blocks.BitPosition();
    }

    lemma BlocksDone()
      requires blocks.Valid() && blocks.mode.DONE?
      ensures blocks.read == blocks.write
    {
      hide Inflating.Inflater.Core, Inflating.Inflater.In;
    }

    /** inflate: one call with more input and room for output. */
    method Call(availIn: nat, room: nat, finish: bool) returns (r: Ret)
      requires Valid() && nextIn + availIn <= |blocks.stream|
      modifies this, blocks, blocks.window, blocks.hufts
      ensures Valid() && nextIn <= old(nextIn) + availIn
      ensures old(blocks.output) <= blocks.output && |blocks.output| <= |old(blocks.output)| + room
      ensures r == (if mode.DONE? then Z_STREAM_END else if mode.DICT0? then Z_NEED_DICT
                    else if old(mode.DICT0?) then Z_STREAM_ERROR else if mode.BAD? then Z_DATA_ERROR
                    else if !finish && Inflating.Moved(old(Here()), Here()) then Z_OK else Z_BUF_ERROR)
      ensures old(mode.DICT0?) ==> mode.BAD?
      ensures r == Z_NEED_DICT ==> blocks.output == old(blocks.output)
      ensures dictionary == old(dictionary) || dictionary == []
      ensures old(mode.BLOCKS?) ==> dictionary == old(dictionary) && r != Z_NEED_DICT
      ensures old(mode.METHOD?) && |blocks.stream| >= 2 && HasDict(blocks.stream) ==>
                blocks.start == old(blocks.start) && !mode.BLOCKS? && !mode.DONE?
      ensures r == Z_DATA_ERROR && !old(mode.BAD?) ==> Faulty()
      ensures room > 0 && (r == Z_OK || r == Z_BUF_ERROR) ==>
                (Inflating.Moved(old(Here()), Here()) <==>
                 nextIn > old(nextIn) || |blocks.output| > |old(blocks.output)|)
      ensures r == Z_OK || r == Z_BUF_ERROR ==>
                !mode.DONE? && !mode.BAD? && !mode.DICT0? &&
                Waits(old(nextIn) + availIn, |blocks.output| == |old(blocks.output)| + room)
    {
      hide Decompressor.Valid, Decompressor.Begun, Inflating.Inflater.Valid, Inflating.Inflater.Starved, HeaderOk,
           HasDict, Decompressor.Faulty;
      var endIn := nextIn + availIn;
      var f := if finish then Z_BUF_ERROR else Z_OK;
      r := Z_BUF_ERROR;
      while true
        invariant Valid() && nextIn <= endIn && (r == Z_BUF_ERROR || r == f)
        invariant old(blocks.output) <= blocks.output && |blocks.output| <= |old(blocks.output)| + room
        invariant mode.METHOD? || mode.FLAG? || mode.DICT? || mode.DICT0? || mode.BLOCKS? ==>
                    blocks.output == old(blocks.output)
        invariant mode.DICT0? ==> old(mode.DICT0?)
        invariant dictionary == old(dictionary) || dictionary == []
        invariant old(mode.BLOCKS?) ==> dictionary == old(dictionary) && !mode.METHOD? && !mode.FLAG? && !mode.DICT?
        invariant old(mode.METHOD?) && |blocks.stream| >= 2 && HasDict(blocks.stream) ==>
                    blocks.start == old(blocks.start) && !mode.BLOCKS? && !mode.CHECK? && !mode.DONE?
        invariant mode.BAD? ==> old(mode.BAD?) || Faulty()
        invariant mode.BAD? || Tells(old(Here()), Here(), endIn, f, r)
        invariant old(mode.DICT0?) ==> mode.DICT0?
        decreases Rank(mode)
      {
        if mode.DONE? { return Z_STREAM_END; }
        if mode.BAD? { return Z_DATA_ERROR; }
        if mode.DICT0? {
          Refuse();
          return Z_STREAM_ERROR;
        }
        if mode.BLOCKS? {
          var leave;
          leave, r := BlocksState(endIn, room, f, r, old(Here()));
          if leave { Progress(old(Here()), endIn, f, r); return; }
        } else {
          if nextIn == endIn { Progress(old(Here()), endIn, f, r); return; }
          ghost var q := Here();
          ByteState(endIn);
          TellsByte(old(Here()), q, Here(), endIn, f, r);
          r := f;
          if mode.DICT0? { return Z_NEED_DICT; }
        }
      }
    }

    lemma Progress(p: Inflating.Spot, endIn: nat, f: Ret, r: Ret)
      requires Tells(p, Here(), endIn, f, r) && nextIn <= endIn
      ensures r == if Inflating.Moved(p, Here()) then f else Z_BUF_ERROR
      ensures nextIn == endIn || |blocks.output| > p.bytes ==>
                (Inflating.Moved(p, Here()) <==> nextIn > p.next || |blocks.output| > p.bytes)
    {
    }

    lemma UntouchedWindow()
      requires Waiting()
      ensures blocks.w == |init| > 0
    {
      hide Decoder.StateOk, Decoder.Run, Inflating.Shows, Checksum;
    }
  }

  /** How the modes follow each other. */
  function Rank(m: Mode): nat {
    match m
    case METHOD => 13
    case FLAG(_) => 12
    case DICT(left, _) => 7 + left
    case DICT0 => 7
    case BLOCKS => 6
    case CHECK(left, _, _) => 1 + left
    case _ => 0
  }
}
