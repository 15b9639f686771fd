/** What deflate_slow and deflate_fast of zlib/deflate.c make of the matches they find, and how far
    matches may reach: the law of lazy and of greedy evaluation, and the barrier of a full flush. */
module Parsing {
  import opened Options
  import opened StringHash
  import opened Tokens
  import opened MatchSearch
  import opened BlockOutput

  /** What the search at one position found: a length of less than MIN_MATCH stands for nothing. */
  datatype Hit = Hit(len: nat, dist: int)

  /** The last completed full flush: the number of blocks before it, its position in the text, and
      how much of the text behind it was known in advance (the preset dictionary, if there was no
      flush). */
  datatype Barrier = Barrier(mark: nat, at: nat, known: nat)

  /** What was found where, and what the output may refer to. */
  datatype Past = Past(far: int, preset: nat, flushed: Barrier, lazy: bool, hits: map<nat, Hit>)

  /** The bytes that a token stands for. */
  function Width(t: Token): nat { if t.dist == 0 then 1 else t.lc + MIN_MATCH }

  function Widths(ts: seq<Token>): nat {
    if ts == [] then 0 else Widths(ts[..|ts| - 1]) + Width(ts[|ts| - 1])
  }

  function AllWidths(blocks: seq<Block>): nat {
    if blocks == [] then 0 else AllWidths(blocks[..|blocks| - 1]) + Widths(blocks[|blocks| - 1].tokens)
  }

  /** The rule for the token at position p. Greedily, what was found there is used. Lazily, it is
      used only if nothing longer was found at the next position; otherwise p is a literal. */
  predicate Chosen(lazy: bool, hits: map<nat, Hit>, p: nat, t: Token) {
    && p in hits
    && if t.dist != 0 then
         && hits[p] == Hit(t.lc + MIN_MATCH, t.dist)
         && (lazy ==> p + 1 in hits && hits[p + 1].len <= hits[p].len)
       else
         hits[p].len < MIN_MATCH || (lazy && p + 1 in hits && hits[p + 1].len > hits[p].len)
  }

  ghost predicate AllChosen(lazy: bool, hits: map<nat, Hit>, p: nat, ts: seq<Token>) {
    ts == [] ||
    (var n := |ts| - 1; AllChosen(lazy, hits, p, ts[..n]) && Chosen(lazy, hits, p + Widths(ts[..n]), ts[n]))
  }

  ghost predicate BlocksChosen(lazy: bool, hits: map<nat, Hit>, p: nat, blocks: seq<Block>) {
    blocks == [] ||
    (var n := |blocks| - 1;
     && BlocksChosen(lazy, hits, p, blocks[..n])
     && AllChosen(lazy, hits, p + AllWidths(blocks[..n]), blocks[n].tokens))
  }

  /** Every token of o obeys the rule, and together they lead from preset to n. */
  ghost predicate Parsed(past: Past, o: Output, n: nat) {
    && past.preset + AllWidths(o.blocks) + Widths(o.tokens) == n
    && BlocksChosen(past.lazy, past.hits, past.preset, o.blocks)
    && AllChosen(past.lazy, past.hits, past.preset + AllWidths(o.blocks), o.tokens)
  }

  /** Blocks and tokens behind the barrier say the text behind it on their own: none reaches back
      across it. */
  ghost predicate Restarts(past: Past, o: Output, text: seq<Byte>, start: nat, n: nat) {
    && past.flushed.mark <= |o.blocks| && past.flushed.at <= start <= n <= |text|
    && Output(o.blocks[past.flushed.mark..], o.tokens).Says(past.far, text[past.flushed.at..], past.flushed.known,
                                                            start - past.flushed.at, n - past.flushed.at)
  }

  /** Blocks and tokens say the text, obey the rule, and do not reach across the barrier. */
  ghost predicate Tells(past: Past, o: Output, text: seq<Byte>, start: nat, n: nat) {
    o.Says(past.far, text, past.preset, start, n) && Parsed(past, o, n) && Restarts(past, o, text, start, n)
  }

  lemma WidthsOne(ts: seq<Token>, t: Token)
    ensures Widths(ts + [t]) == Widths(ts) + Width(t)
  {
    assert (ts + [t])[..|ts|] == ts;
  }

  lemma ParsedOne(past: Past, o: Output, n: nat, t: Token)
    requires Parsed(past, o, n) && Chosen(past.lazy, past.hits, n, t)
    ensures Parsed(past, Output(o.blocks, o.tokens + [t]), n + Width(t))
  {
    WidthsOne(o.tokens, t);
    assert (o.tokens + [t])[..|o.tokens|] == o.tokens;
  }

  lemma ParsedFlush(past: Past, o: Output, n: nat, b: Block)
    requires Parsed(past, o, n) && b.tokens == o.tokens
    ensures Parsed(past, Output(o.blocks + [b], []), n)
  {
    assert (o.blocks + [b])[..|o.blocks|] == o.blocks;
  }

  lemma TellsLiteral(past: Past, o: Output, text: seq<Byte>, start: nat, n: nat)
    requires Tells(past, o, text, start, n) && n < |text| && Chosen(past.lazy, past.hits, n, Token(0, text[n]))
    ensures Tells(past, o.Tally(0, text[n]), text, start, n + 1)
  {
    hide Output.Says, Parsed, Chosen;
    var f := past.flushed;
    SaysLiteral(past.far, o, text, past.preset, start, n);
    SaysLiteral(past.far, Output(o.blocks[f.mark..], o.tokens), text[f.at..], f.known, start - f.at, n - f.at);
    ParsedOne(past, o, n, Token(0, text[n]));
  }

  lemma TellsMatch(past: Past, o: Output, text: seq<Byte>, start: nat, n: nat, from: nat, len: nat)
    requires Tells(past, o, text, start, n) && past.flushed.at <= from
    requires from < n && n - from <= past.far && n - from < 0x10000 && MIN_MATCH <= len <= MAX_MATCH
    requires n + len <= |text| && SameRun(text, from, n, len)
    requires Chosen(past.lazy, past.hits, n, Token(n - from, len - MIN_MATCH))
    ensures Tells(past, o.Tally(n - from, len - MIN_MATCH), text, start, n + len)
  {
    hide Output.Says, Parsed, Chosen, SameRun;
    var f := past.flushed;
    SaysMatch(past.far, o, text, past.preset, start, n, from, len);
    RunBehind(text, f.at, from, n, len);
    SaysMatch(past.far, Output(o.blocks[f.mark..], o.tokens), text[f.at..], f.known, start - f.at, n - f.at,
              from - f.at, len);
    TallyExact(o, n - from, len - MIN_MATCH);
    ParsedOne(past, o, n, Token(n - from, len - MIN_MATCH));
  }

  /** A run is a run of the text without its beginning. */
  lemma {:induction false} RunBehind(text: seq<Byte>, at: nat, a: nat, b: nat, n: nat)
    requires SameRun(text, a, b, n) && at <= a && at <= b && at <= |text|
    ensures SameRun(text[at..], a - at, b - at, n)
    decreases n
  {
    if n > 0 { RunBehind(text, at, a, b, n - 1); }
  }

  lemma TellsFlush(past: Past, o: Output, text: seq<Byte>, start: nat, n: nat, buf: Option<seq<Byte>>, last: bool)
    requires Tells(past, o, text, start, n)
    requires buf.Some? ==> n - start < 0x10000 && buf.value == text[start..n]
    ensures start <= n && Tells(past, o.Flush(buf, n - start, last), text, n, n)
  {
    hide Output.Says, Parsed;
    var f := past.flushed;
    var b := Block(o.tokens, buf, n - start, last);
    SaysFlush(past.far, o, text, past.preset, start, n, buf, last);
    assert text[f.at..][start - f.at..n - f.at] == text[start..n];
    SaysFlush(past.far, Output(o.blocks[f.mark..], o.tokens), text[f.at..], f.known, start - f.at, n - f.at, buf, last);
    assert (o.blocks + [b])[f.mark..] == o.blocks[f.mark..] + [b];
    ParsedFlush(past, o, n, b);
  }

  lemma TellsMore(past: Past, o: Output, text: seq<Byte>, longer: seq<Byte>, start: nat, n: nat)
    requires Tells(past, o, text, start, n) && text <= longer
    ensures Tells(past, o, longer, start, n)
  {
    hide Output.Says, Parsed;
    var f := past.flushed;
    SaysMore(past.far, o, text, longer, past.preset, start, n);
    SaysMore(past.far, Output(o.blocks[f.mark..], o.tokens), text[f.at..], longer[f.at..], f.known, start - f.at,
             n - f.at);
  }

  /** More finds change nothing of what was chosen. */
  ghost predicate Extends(hits: map<nat, Hit>, more: map<nat, Hit>) {
    forall p :: p in hits ==> p in more && more[p] == hits[p]
  }

  lemma {:induction false} ChosenStays(lazy: bool, hits: map<nat, Hit>, more: map<nat, Hit>, p: nat, ts: seq<Token>)
    requires AllChosen(lazy, hits, p, ts) && Extends(hits, more)
    ensures AllChosen(lazy, more, p, ts)
    decreases |ts|
  {
    if ts != [] { ChosenStays(lazy, hits, more, p, ts[..|ts| - 1]); }
  }

  lemma {:induction false} BlocksStay(lazy: bool, hits: map<nat, Hit>, more: map<nat, Hit>, p: nat, blocks: seq<Block>)
    requires BlocksChosen(lazy, hits, p, blocks) && Extends(hits, more)
    ensures BlocksChosen(lazy, more, p, blocks)
    decreases |blocks|
  {
    hide AllChosen;
    if blocks != [] {
      var n := |blocks| - 1;
      BlocksStay(lazy, hits, more, p, blocks[..n]);
      ChosenStays(lazy, hits, more, p + AllWidths(blocks[..n]), blocks[n].tokens);
    }
  }

  lemma TellsHits(past: Past, more: map<nat, Hit>, o: Output, text: seq<Byte>, start: nat, n: nat)
    requires Tells(past, o, text, start, n) && Extends(past.hits, more)
    ensures Tells(past.(hits := more), o, text, start, n)
  {
    hide Output.Says, AllChosen, BlocksChosen;
    BlocksStay(past.lazy, past.hits, more, past.preset, o.blocks);
    ChosenStays(past.lazy, past.hits, more, past.preset + AllWidths(o.blocks), o.tokens);
  }

  /** Between two blocks a barrier may be put up. */
  lemma TellsBarrier(past: Past, o: Output, text: seq<Byte>, n: nat)
    requires Tells(past, o, text, n, n) && n == |text| && o.tokens == [] && past.far >= 0
    ensures Tells(past.(flushed := Barrier(|o.blocks|, n, 0)), o, text, n, n)
  {
    assert o.blocks[|o.blocks|..] == [] && text[n..] == [];
    NothingSays(past.far);
  }

  lemma NothingSays(far: int)
    requires far >= 0
    ensures Output([], []).Says(far, [], 0, 0, 0)
  {
    var none: seq<Byte> := [];
    assert none[..0] == none;
  }

  lemma TellsSize(past: Past, o: Output, text: seq<Byte>, start: nat, n: nat)
    requires Tells(past, o, text, start, n)
    ensures past.preset <= start <= n <= |text| && past.flushed.at <= start && past.flushed.mark <= |o.blocks|
    ensures o.Says(past.far, text, past.preset, start, n) && past.far >= 0
  {
  }
}
