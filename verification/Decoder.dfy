/** What a deflate stream means, bit by bit (section 3.2.3 of RFC 1951, with the limits of
    zlib/infblock.c): the states of inflate without buffers, windows and tables. Symbols are read
    by their canonical codes. */
module Decoder {
  import opened Arith
  import opened Options
  import opened BitStrings
  import opened StringHash
  import opened SymbolCodes
  import opened CodeReading
  import opened CopyCodes
  import opened BlockFields

  /** Where the decoder is within the symbols of a block. */
  datatype SymbolMode =
    | Symbol
    | LengthBits(get: nat, len: nat)
    | Distance(len: nat)
    | DistanceBits(len: nat, get: nat, dist: nat)
    | Copying(len: nat, dist: nat)
    | Literal(lit: nat)
    | BlockEnd

  /** Where the decoder is in the stream. A block in progress has its code lengths. */
  datatype Mode =
    | BlockType
    | StoredSize
    | StoredBytes(left: nat)
    | TreeCounts
    | BitLengths(table: nat, index: nat, blens: seq<nat>)
    | CodeLengths(table: nat, index: nat, blens: seq<nat>, bl: seq<nat>)
    | InBlock(ll: seq<nat>, dl: seq<nat>, m: SymbolMode)
    | Finished
    | Invalid

  /** The position in the bit stream, and the text: what was in the window, of size w, before
      the first byte, and all bytes decoded since. */
  datatype State = State(mode: Mode, last: bool, pos: nat, text: seq<Byte>)

  /** A stream and a window size. */
  datatype Env = Env(bits: Bits, w: nat)

  ghost predicate SymbolOk(m: SymbolMode) {
    match m
    case LengthBits(get, len) => get <= 5 && 3 <= len && len + Pow2(get) <= 259
    case Distance(len) => 3 <= len <= 258
    case DistanceBits(len, get, dist) => 3 <= len <= 258 && get <= 15 && dist >= 1
    case Copying(len, dist) => len <= 258 && dist >= 1
    case _ => true
  }

  /** The lengths read so far belong to the counts in the header; those of a block are lengths
      of codes. */
  ghost predicate ModeOk(m: Mode) {
    match m
    case BitLengths(table, index, blens) =>
      && |blens| == TotalCodes(table) && index <= BitCodes(table) <= 19 &&
         (forall i :: 0 <= i < |blens| ==> blens[i] <= 7)
      && LengthCodes(table) <= 286 && DistCodes(table) <= 30
    case CodeLengths(table, index, blens, bl) =>
      && |blens| == TotalCodes(table) && index <= |blens| && (forall i :: 0 <= i < |blens| ==> blens[i] <= 15)
      && LengthCodes(table) <= 286 && DistCodes(table) <= 30
      && |bl| == 19 && (forall i :: 0 <= i < |bl| ==> bl[i] <= 7) && Usable(bl) && SomeCode(bl)
    case StoredBytes(left) => left > 0
    case InBlock(ll, dl, m) =>
      Lengths(ll) && Lengths(dl) && |ll| <= MAX_LITERAL_CODES && |dl| <= MAX_DISTANCE_CODES && SymbolOk(m)
    case _ => true
  }

  ghost predicate StateOk(env: Env, s: State) {
    && 0 < env.w <= |s.text| && s.pos <= |env.bits| && |env.bits| % 8 == 0 && ModeOk(s.mode)
    && (s.mode.StoredSize? || s.mode.StoredBytes? ==> s.pos % 8 == 0)
  }

  /** The mode behind a block. */
  function NextBlock(last: bool): Mode { if last then Finished else BlockType }

  ghost function TypeStep(env: Env, s: State): State
    requires s.pos <= |env.bits|
  {
    if s.pos + 3 > |env.bits| then s
    else
      var t := Peek(env.bits, s.pos, 3);
      var s' := s.(last := t % 2 == 1, pos := s.pos + 3);
      if t / 2 == 0 then s'.(mode := StoredSize, pos := ByteBoundary(s.pos + 3))
      else if t / 2 == 1 then s'.(mode := InBlock(StaticL(), StaticD(), Symbol))
      else if t / 2 == 2 then s'.(mode := TreeCounts)
      else s'.(mode := Invalid)
  }

  ghost function SizeStep(env: Env, s: State): State
    requires s.pos <= |env.bits|
  {
    if s.pos + 32 > |env.bits| then s
    else
      var lo, hi := Peek(env.bits, s.pos, 16), Peek(env.bits, s.pos + 16, 16);
      if 0xffff - hi != lo then s.(mode := Invalid)
      else s.(mode := if lo > 0 then StoredBytes(lo) else NextBlock(s.last), pos := s.pos + 32)
  }

  ghost function StoredStep(env: Env, s: State): State
    requires s.pos <= |env.bits| && s.mode.StoredBytes? && s.mode.left > 0
  {
    if s.pos + 8 > |env.bits| then s
    else
      assert Pow2(8) == 0x100;
      s.(mode := if s.mode.left > 1 then StoredBytes(s.mode.left - 1) else NextBlock(s.last),
         pos := s.pos + 8, text := s.text + [Peek(env.bits, s.pos, 8)])
  }

  ghost function CountsStep(env: Env, s: State): State
    requires s.pos <= |env.bits|
  {
    if s.pos + 14 > |env.bits| then s
    else
      var t := Peek(env.bits, s.pos, 14);
      if t % 32 > 29 || t / 32 % 32 > 29 then s.(mode := Invalid)
      else s.(mode := BitLengths(t, 0, Zeros(TotalCodes(t))), pos := s.pos + 14)
  }

  ghost function BitLengthsStep(env: Env, s: State): State
    requires s.pos <= |env.bits| && s.mode.BitLengths? && ModeOk(s.mode)
  {
    var BitLengths(table, index, blens) := s.mode;
    if index < BitCodes(table) then
      if s.pos + 3 > |env.bits| then s
      else s.(mode := BitLengths(table, index + 1, blens[border[index] := Peek(env.bits, s.pos, 3)]), pos := s.pos + 3)
    else
      var all := ZeroRest(blens, index);
      if Usable(all[..19]) && SomeCode(all[..19]) then s.(mode := CodeLengths(table, 0, all, all[..19]))
      else s.(mode := Invalid)
  }

  /** The lengths of a dynamic block that are accepted: both sets can be decoded, and there are
      distance codes if there are length codes. */
  ghost predicate Accepted(nl: nat, blens: seq<nat>)
    requires nl <= |blens|
  {
    && Usable(blens[..nl]) && SomeCode(blens[..nl]) && Usable(blens[nl..])
    && (SomeCode(blens[nl..]) || nl == LITERALS)
  }

  ghost function CodeLengthsStep(env: Env, s: State): State
    requires s.pos <= |env.bits| && s.mode.CodeLengths? && ModeOk(s.mode)
  {
    var CodeLengths(table, index, blens, bl) := s.mode;
    var nl := LengthCodes(table);
    if index >= |blens| then
      s.(mode := if Accepted(nl, blens) then InBlock(blens[..nl], blens[nl..], Symbol) else Invalid)
    else
      var (c, len) := BlCode(bl, env.bits, s.pos);
      if s.pos + len > |env.bits| then s
      else if c < 16 then s.(mode := CodeLengths(table, index + 1, blens[index := c], bl), pos := s.pos + len)
      else RepeatStep(env, s, c, len)
  }

  /** A repeat code c of len bits. */
  ghost function RepeatStep(env: Env, s: State, c: nat, len: nat): State
    requires s.pos <= |env.bits| && s.mode.CodeLengths? && ModeOk(s.mode) && s.mode.index < |s.mode.blens| && c >= 16
  {
    var CodeLengths(table, index, blens, bl) := s.mode;
    var i := RepeatBits(c);
    if s.pos + len + i > |env.bits| then s
    else
      var j := RepeatBase(c) + Peek(env.bits, s.pos + len, i);
      if index + j > |blens| || (c == 16 && index < 1) then s.(mode := Invalid)
      else s.(mode := CodeLengths(table, index + j, Fill(blens, index, j, if c == 16 then blens[index - 1] else 0), bl),
              pos := s.pos + len + i)
  }

  /** What a literal or length symbol stands for. */
  function AfterSymbol(sym: nat): Option<SymbolMode>
    requires sym < MAX_LITERAL_CODES
  {
    if sym < 256 then Some(Literal(sym))
    else if sym == 256 then Some(BlockEnd)
    else if cplext[sym - 257] == 112 then None
    else Some(LengthBits(cplext[sym - 257], cplens[sym - 257]))
  }

  /** A literal or length symbol, or a distance symbol. */
  ghost function SymbolStep(env: Env, s: State): State
    requires StateOk(env, s) && s.mode.InBlock? && (s.mode.m.Symbol? || s.mode.m.Distance?)
  {
    var InBlock(ll, dl, m) := s.mode;
    if m.Symbol? then
      match SymbolAt(ll, env.bits, s.pos)
      case None => s.(mode := Invalid)
      case Some(sym) =>
        if s.pos + ll[sym] > |env.bits| then s
        else if AfterSymbol(sym).None? then s.(mode := Invalid)
        else s.(mode := InBlock(ll, dl, AfterSymbol(sym).value), pos := s.pos + ll[sym])
    else
      match SymbolAt(dl, env.bits, s.pos)
      case None => s.(mode := Invalid)
      case Some(sym) =>
        if s.pos + dl[sym] > |env.bits| then s
        else s.(mode := InBlock(ll, dl, DistanceBits(m.len, cpdext[sym], cpdist[sym])), pos := s.pos + dl[sym])
  }

  /** The extra bits a mode waits for. */
  function Extra(m: SymbolMode): nat {
    match m
    case LengthBits(get, _) => get
    case DistanceBits(_, get, _) => get
    case _ => 0
  }

  /** Extra bits, copies and literals: the next mode, the bits taken and the bytes put out. The
      extra bits are read as the number peek. */
  function PlainStep(m: SymbolMode, peek: nat, text: seq<Byte>, w: nat): (SymbolMode, nat, seq<Byte>)
    requires 0 < w <= |text|
  {
    match m
    case LengthBits(get, len) => (Distance(len + peek), get, [])
    case DistanceBits(len, get, dist) => (Copying(len, dist + peek), get, [])
    case Copying(len, dist) =>
      if len == 0 then (Symbol, 0, []) else (Copying(len - 1, dist), 0, [text[|text| - Back(dist, w)]])
    case Literal(lit) => (Symbol, 0, [lit % 0x100])
    case _ => (m, 0, [])
  }

  ghost function InBlockStep(env: Env, s: State): State
    requires StateOk(env, s) && s.mode.InBlock?
  {
    var InBlock(ll, dl, m) := s.mode;
    if m.BlockEnd? then s.(mode := NextBlock(s.last))
    else if m.Symbol? || m.Distance? then SymbolStep(env, s)
    else if s.pos + Extra(m) > |env.bits| then s
    else
      var (m', taken, out) := PlainStep(m, Peek(env.bits, s.pos, Extra(m)), s.text, env.w);
      s.(mode := InBlock(ll, dl, m'), pos := s.pos + taken, text := s.text + out)
  }

  /** One step. Without enough bits the decoder waits. */
  ghost function Step(env: Env, s: State): State
    requires StateOk(env, s)
  {
    match s.mode
    case BlockType => TypeStep(env, s)
    case StoredSize => SizeStep(env, s)
    case StoredBytes(_) => StoredStep(env, s)
    case TreeCounts => CountsStep(env, s)
    case BitLengths(_, _, _) => BitLengthsStep(env, s)
    case CodeLengths(_, _, _, _) => CodeLengthsStep(env, s)
    case InBlock(_, _, _) => InBlockStep(env, s)
    case Finished => s
    case Invalid => s
  }

  /** The state r is in order and goes on from s, in the stream and in the text. */
  ghost predicate Follows(env: Env, s: State, r: State) {
    StateOk(env, r) && s.text <= r.text && s.pos <= r.pos
  }

  lemma TypeStepOk(env: Env, s: State)
    requires StateOk(env, s)
    ensures Follows(env, s, TypeStep(env, s))
  {
    hide Peek;
  }

  lemma SizeStepOk(env: Env, s: State)
    requires StateOk(env, s) && s.mode.StoredSize?
    ensures Follows(env, s, SizeStep(env, s))
  {
    hide Peek, Pow2, SymbolOk, Usable;
    assert s.pos % 8 == 0 ==> (s.pos + 32) % 8 == 0;
  }

  lemma StoredStepOk(env: Env, s: State)
    requires StateOk(env, s) && s.mode.StoredBytes?
    ensures Follows(env, s, StoredStep(env, s))
  {
    hide Peek, SymbolOk, Usable;
  }

  lemma CountsStepOk(env: Env, s: State)
    requires StateOk(env, s)
    ensures Follows(env, s, CountsStep(env, s))
  {
    hide Peek, SymbolOk, Usable;
    assert Pow2(14) == 0x4000;
  }

  lemma PeekThree(env: Env, pos: nat)
    ensures pos + 3 <= |env.bits| ==> Peek(env.bits, pos, 3) <= 7
  {
    if pos + 3 <= |env.bits| { assert Pow2(3) == 8; }
  }

  lemma BitLengthsStepOk(env: Env, s: State)
    requires StateOk(env, s) && s.mode.BitLengths?
    ensures Follows(env, s, BitLengthsStep(env, s))
  {
    hide Peek, ZeroRest, SymbolOk, Usable;
    var BitLengths(table, index, blens) := s.mode;
    if index >= BitCodes(table) { ZeroOk(blens, index, 7); } else { PeekThree(env, s.pos); }
  }

  lemma RepeatStepOk(env: Env, s: State, c: nat, len: nat)
    requires StateOk(env, s) && s.mode.CodeLengths? && s.mode.index < |s.mode.blens| && c >= 16
    ensures Follows(env, s, RepeatStep(env, s, c, len))
  {
    hide Peek, Fill, SymbolOk, Usable;
    var CodeLengths(table, index, blens, bl) := s.mode;
    var i := RepeatBits(c);
    if s.pos + len + i <= |env.bits| {
      var j := RepeatBase(c) + Peek(env.bits, s.pos + len, i);
      if index + j <= |blens| && (c != 16 || index >= 1) {
        FillOk(blens, index, j, if c == 16 then blens[index - 1] else 0, 15);
      }
    }
  }

  lemma CodeLengthsStepOk(env: Env, s: State)
    requires StateOk(env, s) && s.mode.CodeLengths?
    ensures Follows(env, s, CodeLengthsStep(env, s))
  {
    hide Peek, RepeatStep, Usable, SomeCode, BlCode;
    var CodeLengths(table, index, blens, bl) := s.mode;
    if index < |blens| {
      var (c, len) := BlCode(bl, env.bits, s.pos);
      if c >= 16 { RepeatStepOk(env, s, c, len); }
    }
  }

  lemma AfterSymbolOk(sym: nat)
    requires sym < MAX_LITERAL_CODES
    ensures AfterSymbol(sym).Some? ==> SymbolOk(AfterSymbol(sym).value)
  {
    if sym >= 257 { LengthEntry(sym - 257); }
  }

  lemma SymbolStepOk(env: Env, s: State)
    requires StateOk(env, s) && s.mode.InBlock? && (s.mode.m.Symbol? || s.mode.m.Distance?)
    ensures Follows(env, s, SymbolStep(env, s))
  {
    hide AfterSymbol, SymbolAt, cpdist, cpdext;
    var InBlock(ll, dl, m) := s.mode;
    if m.Symbol? {
      var r := SymbolAt(ll, env.bits, s.pos);
      if r.Some? { AfterSymbolOk(r.value); }
    } else {
      var r := SymbolAt(dl, env.bits, s.pos);
      if r.Some? { DistanceEntry(r.value); }
    }
  }

  lemma PlainStepOk(m: SymbolMode, peek: nat, text: seq<Byte>, w: nat)
    requires 0 < w <= |text| && SymbolOk(m) && peek < Pow2(Extra(m))
    ensures var (m', taken, out) := PlainStep(m, peek, text, w); SymbolOk(m') && 0 <= taken <= Extra(m)
  {
  }

  lemma InBlockStepOk(env: Env, s: State)
    requires StateOk(env, s) && s.mode.InBlock?
    ensures Follows(env, s, InBlockStep(env, s))
  {
    hide Peek, PlainStep, SymbolStep, SymbolOk;
    var InBlock(ll, dl, m) := s.mode;
    if m.Symbol? || m.Distance? {
      SymbolStepOk(env, s);
    } else if s.pos + Extra(m) <= |env.bits| {
      PlainStepOk(m, Peek(env.bits, s.pos, Extra(m)), s.text, env.w);
    }
  }

  /** Every step keeps the state in order and only adds to the text. */
  lemma StepOk(env: Env, s: State)
    requires StateOk(env, s)
    ensures StateOk(env, Step(env, s)) && s.text <= Step(env, s).text && s.pos <= Step(env, s).pos
  {
    hide TypeStep, SizeStep, StoredStep, CountsStep, BitLengthsStep, CodeLengthsStep, InBlockStep;
    match s.mode {
      case BlockType => TypeStepOk(env, s);
      case StoredSize => SizeStepOk(env, s);
      case StoredBytes(_) => StoredStepOk(env, s);
      case TreeCounts => CountsStepOk(env, s);
      case BitLengths(_, _, _) => BitLengthsStepOk(env, s);
      case CodeLengths(_, _, _, _) => CodeLengthsStepOk(env, s);
      case InBlock(_, _, _) => InBlockStepOk(env, s);
      case _ =>
    }
  }

  /** n steps from s. */
  ghost function Run(env: Env, s: State, n: nat): (r: State)
    requires StateOk(env, s)
    ensures StateOk(env, r)
    decreases n
  {
    if n == 0 then s else var t := Run(env, s, n - 1); StepOk(env, t); Step(env, t)
  }

  lemma {:induction false} RunPlus(env: Env, s: State, m: nat, n: nat)
    requires StateOk(env, s)
    ensures Run(env, s, m + n) == Run(env, Run(env, s, m), n)
    decreases n
  {
    hide Step;
    if n > 0 { RunPlus(env, s, m, n - 1); }
  }

  /** A longer run only goes on in the stream and adds to the text. */
  lemma {:induction false} RunExtends(env: Env, s: State, m: nat, n: nat)
    requires StateOk(env, s) && m <= n
    ensures Run(env, s, m).text <= Run(env, s, n).text && Run(env, s, m).pos <= Run(env, s, n).pos
    decreases n
  {
    hide Step;
    if m < n {
      RunExtends(env, s, m, n - 1);
      StepOk(env, Run(env, s, n - 1));
    }
  }

  /** A state without a next one stays as it is. */
  lemma {:induction false} RunStays(env: Env, s: State, n: nat)
    requires StateOk(env, s) && Step(env, s) == s
    ensures Run(env, s, n) == s
    decreases n
  {
    hide Step;
    if n > 0 { RunStays(env, s, n - 1); }
  }
}
