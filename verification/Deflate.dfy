/** The match finder and the lazy and greedy matchers of zlib/deflate.c. */
module Deflate {
  import opened Options
  import opened Arith
  import opened StringHash
  import opened Tokens
  import opened Chains
  import opened MatchSearch
  import opened BlockOutput
  import opened Parsing
  import opened BitOutput
  import opened BlockForms
  import opened BlockWriting
  import opened Adler

  const MIN_LOOKAHEAD := MAX_MATCH + MIN_MATCH + 1
  const TOO_FAR := 4096

  /** One row of configuration_table. */
  datatype Config = Config(goodLength: nat, maxLazy: nat, niceLength: nat, maxChain: nat)

  /** The flush argument of deflate. */
  datatype Flush = NoFlush | PartialFlush | SyncFlush | FullFlush | Finish

  /** Z_NO_FLUSH to Z_FINISH. */
  function FlushCode(f: Flush): int {
    match f
    case NoFlush => 0
    case PartialFlush => 1
    case SyncFlush => 2
    case FullFlush => 3
    case Finish => 4
  }

  datatype StreamStatus = INIT_STATE | BUSY_STATE | FINISH_STATE

  datatype Ret = Z_OK | Z_STREAM_END | Z_STREAM_ERROR | Z_BUF_ERROR

  datatype BlockState = NeedMore | BlockDone | FinishStarted | FinishDone

  datatype Strategy = DefaultStrategy | Filtered | HuffmanOnly

  /** fill_window: one of the two tables slides down by w. */
  method SlideTable(table: array<nat>, w: nat)
    modifies table
    ensures forall i :: 0 <= i < table.Length ==> table[i] == Slid(old(table[i]), w)
  {
    var n := table.Length;
    while n > 0
      invariant 0 <= n <= table.Length
      invariant forall i :: 0 <= i < n ==> table[i] == old(table[i])
      invariant forall i :: n <= i < table.Length ==> table[i] == Slid(old(table[i]), w)
    {
      n := n - 1;
      var m := table[n];
      table[n] := if m >= w then m - w else 0;
    }
  }

  class Compressor {
    const hash: Params
    const wBits: nat
    const wSize: nat
    const config: Config
    const strategy: Strategy
    const litBufSize: nat
    const lazy: bool
    const out: BlockWriter
    const window: array<Byte>
    const head: array<nat>
    const prev: array<nat>

    var insH: nat
    var strstart: nat
    var lookahead: nat
    var blockStart: int
    var matchLength: nat
    var prevLength: nat
    var matchStart: int
    var prevMatch: int
    var matchAvailable: bool
    var output: Output
    var availIn: seq<Byte>
    var adler: nat
    var noheader: int
    var status: StreamStatus
    var lastFlush: int

    // Every byte that entered the window, the preset dictionary first; window index i
    // holds position base + i.
    ghost var hist: seq<Byte>
    ghost var base: nat
    ghost var dict: Dict
    ghost var preset: nat
    ghost var dictCheck: nat

    // What the search found at every position where there was one, and the last full flush.
    ghost var hits: map<nat, Hit>
    ghost var flushed: Barrier

    function MaxDist(): int { wSize - MIN_LOOKAHEAD }

    ghost predicate Shape() {
      && hash.Valid()
      && 512 <= wSize <= 32768
      && config.maxChain >= 4 && litBufSize >= 2
      && window.Length == 2 * wSize
      && head.Length == hash.Size()
      && prev.Length == wSize
      && head != prev
      && window as object != head && window as object != prev
    }

    /** The window holds the text from position base on. */
    ghost predicate TextOk()
      reads this`hist, this`base, window
    {
      && Shape()
      && base <= |hist| <= base + 2 * wSize
      && forall i :: 0 <= i < |hist| - base ==> window[i] == hist[base + i]
    }

    /** The tables hold the chains of the text, as far back as the last full flush. */
    ghost predicate TablesOk()
      reads this`hist, this`base, this`dict, this`flushed, head, prev
    {
      && Shape()
      && dict == Dict(wSize, base, head[..], prev[..], KeysOf(hash, hist), dict.chained, dict.cursor)
      && dict.Ok()
      && flushed.at <= dict.cursor && forall q :: q in dict.chained ==> flushed.at <= q
    }

    ghost function ThePast(): Past
      reads this`preset, this`flushed, this`hits
    {
      Past(MaxDist(), preset, flushed, lazy, hits)
    }

    /** The blocks say the text up to start, blocks and tokens up to n, by the rules of the level. */
    ghost predicate Told(start: nat, n: nat)
      reads this`hist, this`preset, this`output, this`flushed, this`hits
    {
      Tells(ThePast(), output, hist, start, n)
    }

    /** What is worth using: within reach, and as the strategy wants it; lazily, no match of three
        bytes that is far away. */
    ghost predicate Worthy(h: Hit) {
      h.len >= MIN_MATCH ==>
        && 1 <= h.dist <= MaxDist() && h.len <= MAX_MATCH && !strategy.HuffmanOnly?
        && (lazy ==> (strategy.Filtered? ==> h.len > 5) && (h.len == MIN_MATCH ==> h.dist <= TOO_FAR))
    }

    /** Searches were made before position n only, and found what is worth using. */
    ghost predicate Sought(n: nat)
      reads this`hits
    {
      forall p :: p in hits ==> p < n && Worthy(hits[p])
    }

    /** The search at position p found len bytes at window index `from`. */
    ghost predicate FoundAt(p: nat, len: nat, from: int)
      reads this`hits, this`base
    {
      p in hits && hits[p] == Hit(len, if len >= MIN_MATCH then p - (base + from) else 0)
    }

    /** What was written are the blocks so far, and more may follow. */
    ghost predicate Writing()
      reads this`output, out`head, out`ps, out`mark, out`offset, out`pad, out`tail,
            out.w`pendingBuf, out.w`pendingOut, out.w`nextOut, out.w`biBuf, out.w`biValid
    {
      out.Wrote(output.blocks) && out.Open()
    }

    /** No block is marked as the last. */
    ghost predicate NoLast()
      reads this`output
    {
      forall i :: 0 <= i < |output.blocks| ==> !output.blocks[i].last
    }

    /** adler is the checksum of the input that has entered the window. */
    ghost predicate Summed()
      reads this`hist, this`preset, this`adler, this`noheader
    {
      preset <= |hist| && (noheader == 0 ==> adler == Checksum(hist[preset..]))
    }

    /** Absolute position of strstart. */
    ghost function Here(): nat
      reads this`base, this`strstart
    {
      base + strstart
    }

    /** The state between two steps of the matchers, as far as the window goes: it holds all text
        that is within reach. */
    ghost predicate Aligned()
      reads this`hist, this`base, this`dict, this`insH, this`strstart, this`lookahead, this`flushed, window, head, prev
    {
      && TablesOk() && TextOk()
      && |hist| == Here() + lookahead && (base > 0 ==> strstart >= MaxDist())
      && dict.cursor <= Here()
      && (lookahead >= MIN_MATCH ==> ReadyAt(hash, insH, hist, Here()))
    }

    lemma WindowByte(i: nat)
      requires TextOk() && base + i < |hist|
      ensures Shape() && i < window.Length && window[i] == hist[base + i]
    {
    }

    lemma TextFits()
      requires TextOk()
      ensures Shape() && |hist| <= base + 2 * wSize
    {
    }

    lemma WindowSlice(i: nat, j: nat)
      requires TextOk() && i <= j && base + j <= |hist|
      ensures window[i..j] == hist[base + i..base + j]
    {
      assert forall k :: 0 <= k < j - i ==> window[i..j][k] == hist[base + i..base + j][k];
    }

    /** The two assignments of INSERT_STRING: str becomes the head of the chain of key h. */
    method LinkString(str: nat, h: nat) returns (hashHead: nat)
      requires TablesOk() && h < head.Length
      requires dict.cursor <= base + str < |dict.keys| && dict.keys[base + str] == h
      modifies this`dict, head, prev
      ensures dict == old(dict).Insert(str, h) && TablesOk()
      ensures hashHead == old(dict).head[h] && old(dict).NoneBetween(hashHead, base + str, h)
      ensures dict.LinkOk(hashHead, h) && (hashHead != 0 ==> hashHead < str)
    {
      hide KeysOf, Dict.Ok, Slot, Dict.NoneBetween;
      hashHead := head[h];
      prev[Slot(str, wSize)] := hashHead;
      head[h] := str;
      InsertOk(dict, str, h);
      dict := dict.Insert(str, h);
    }

    /** INSERT_STRING. */
    method InsertString(str: nat) returns (hashHead: nat)
      requires TablesOk() && TextOk() && ReadyAt(hash, insH, hist, base + str)
      requires dict.cursor <= base + str && base + str + 3 <= |hist|
      modifies this`insH, this`dict, head, prev
      ensures insH < head.Length && insH == old(dict.keys)[base + str]
      ensures dict == old(dict).Insert(str, insH) && TablesOk()
      ensures ReadyAt(hash, insH, hist, base + str + 1)
      ensures hashHead == old(dict).head[insH] && old(dict).NoneBetween(hashHead, base + str, insH)
      ensures dict.LinkOk(hashHead, insH) && (hashHead != 0 ==> hashHead < str)
    {
      hide KeysOf, ReadyAt, Dict.Ok, Slot, Dict.NoneBetween, Params.Valid;
      insH := UpdateHash(hash, insH, window[str + 2], hist, base + str);
      hashHead := LinkString(str, insH);
    }

    /** The slide of fill_window: the upper half of the window and all links move down. */
    method SlideWindow()
      requires TablesOk() && TextOk() && strstart >= wSize && Here() <= |hist|
      modifies this`strstart, this`matchStart, this`blockStart, this`base, this`dict, window, head, prev
      ensures TablesOk() && TextOk() && dict == old(dict).Slide() && base == old(base) + wSize
      ensures strstart == old(strstart) - wSize
      ensures matchStart == old(matchStart) - wSize && blockStart == old(blockStart) - wSize
    {
      hide KeysOf, Dict.Ok;
      forall i | 0 <= i < wSize { window[i] := window[wSize + i]; }
      matchStart := matchStart - wSize;
      strstart := strstart - wSize;
      blockStart := blockStart - wSize;
      SlideTable(head, wSize);
      SlideTable(prev, wSize);
      SlideOk(dict);
      base := base + wSize;
      dict := dict.Slide();
    }

    /** zmemcpy of bytes into the window, behind the known text. */
    method LoadWindow(buf: nat, bytes: seq<Byte>)
      requires TablesOk() && TextOk() && base + buf == |hist| && buf + |bytes| <= 2 * wSize
      modifies this`hist, this`dict, window
      ensures TablesOk() && TextOk() && hist == old(hist) + bytes
      ensures dict == old(dict).(keys := KeysOf(hash, hist))
    {
      hide KeysOf, Dict.Ok;
      forall i | 0 <= i < |bytes| { window[buf + i] := bytes[i]; }
      KeysOfPrefix(hash, hist, bytes);
      GrowOk(dict, KeysOf(hash, hist + bytes));
      hist := hist + bytes;
      dict := dict.(keys := KeysOf(hash, hist));
    }

    /** read_buf: up to size bytes of input enter the window behind the known text. */
    method ReadBuf(buf: nat, size: nat) returns (n: nat)
      requires TablesOk() && TextOk() && base + buf == |hist| && buf + size <= 2 * wSize && Summed()
      modifies this`availIn, this`adler, this`hist, this`dict, window
      ensures TablesOk() && TextOk() && n == Min(size, |old(availIn)|) && Summed()
      ensures hist == old(hist) + old(availIn)[..n] && availIn == old(availIn)[n..]
      ensures dict == old(dict).(keys := KeysOf(hash, hist))
    {
      hide KeysOf, Dict.Ok, Compressor.TextOk, Compressor.TablesOk, Checksum, Pack, Unpack, Sums.Over;
      n := if |availIn| > size then size else |availIn|;
      if noheader == 0 {
        ghost var before := hist[preset..];
        ChecksumFits(before);
        adler := Adler32(adler, availIn[..n]);
        ChecksumMore(before, availIn[..n], adler);
        assert (hist + availIn[..n])[preset..] == before + availIn[..n];
      }
      LoadWindow(buf, availIn[..n]);
      availIn := availIn[n..];
    }

    /** fill_window: once strstart is too far up, the window slides; positions stay. */
    method MakeRoom()
      requires Aligned() && lookahead < MIN_LOOKAHEAD
      modifies this`strstart, this`matchStart, this`blockStart, this`base, this`dict, window, head, prev
      ensures Aligned() && strstart + lookahead + 2 <= 2 * wSize && strstart + MIN_LOOKAHEAD <= 2 * wSize
      ensures dict.chained == old(dict.chained)
      ensures Here() == old(Here()) && dict.cursor == old(dict.cursor) && (old(strstart) >= 1 ==> strstart >= 1)
      ensures base + matchStart == old(base + matchStart) && base + blockStart == old(base + blockStart)
    {
      hide KeysOf, ReadyAt, Dict.Ok;
      if strstart >= wSize + MaxDist() {
        SlideWindow();
      }
    }

    /** fill_window: reads as much as fits and restarts the running hash. */
    method ReadMore()
      requires Aligned() && lookahead < MIN_LOOKAHEAD && strstart + lookahead + 2 <= 2 * wSize && Summed()
      modifies this`lookahead, this`insH, this`availIn, this`adler, this`hist, this`dict, window
      ensures Aligned() && dict.cursor == old(dict.cursor) && Summed() && dict.chained == old(dict.chained)
      ensures hist + availIn == old(hist + availIn)
      ensures lookahead >= old(lookahead) && (old(availIn) != [] ==> lookahead > old(lookahead))
    {
      hide KeysOf, ReadyAt, Dict.Ok, Checksum, Compressor.Summed, Compressor.TextOk;
      TextFits();
      var n := ReadBuf(strstart + lookahead, 2 * wSize - lookahead - strstart);
      lookahead := lookahead + n;
      if lookahead >= MIN_MATCH {
        WindowByte(strstart); WindowByte(strstart + 1);
        insH := FreshHash(hash, window[strstart], window[strstart + 1], hist, Here());
      }
    }

    /** fill_window. */
    method FillWindow()
      requires Aligned() && lookahead < MIN_LOOKAHEAD && Summed()
      modifies this`strstart, this`lookahead, this`matchStart, this`blockStart, this`insH, this`availIn, this`adler,
               this`hist, this`base, this`dict, window, head, prev
      ensures Summed() && Aligned() && strstart + MIN_LOOKAHEAD <= 2 * wSize
      ensures Here() == old(Here()) && lookahead >= old(lookahead) && dict.cursor == old(dict.cursor)
      ensures dict.chained == old(dict.chained)
      ensures old(strstart) >= 1 ==> strstart >= 1
      ensures base + matchStart == old(base + matchStart) && base + blockStart == old(base + blockStart)
      ensures hist + availIn == old(hist + availIn)
      ensures lookahead < MIN_LOOKAHEAD ==> availIn == []
    {
      hide *;
      MakeRoom();
      while availIn != [] && lookahead < MIN_LOOKAHEAD
        invariant Summed() && Aligned() && strstart + MIN_LOOKAHEAD <= 2 * wSize
        invariant availIn != [] && lookahead < MIN_LOOKAHEAD ==> strstart + lookahead + 2 <= 2 * wSize
        invariant Here() == old(Here()) && lookahead >= old(lookahead) && dict.cursor == old(dict.cursor)
        invariant dict.chained == old(dict.chained)
        invariant old(strstart) >= 1 ==> strstart >= 1
        invariant base + matchStart == old(base + matchStart) && base + blockStart == old(base + blockStart)
        invariant hist + availIn == old(hist + availIn)
        decreases MIN_LOOKAHEAD - lookahead
      {
        ReadMore();
        if availIn != [] && lookahead < MIN_LOOKAHEAD { MakeRoom(); }
      }
    }

    function Limit(): nat
      reads this`strstart
    {
      if strstart > MaxDist() >= 0 then strstart - MaxDist() else 0
    }

    function ChainLength(): nat
      reads this`prevLength
    {
      if prevLength >= config.goodLength then config.maxChain / 4 else config.maxChain
    }

    function Nice(): nat
      reads this`lookahead
    {
      if config.niceLength > lookahead then lookahead else config.niceLength
    }

    ghost function TheQuery(): Query
      reads this`strstart, this`lookahead, window, prev
    {
      Query(window[..], prev[..], strstart, Limit(), Nice())
    }

    /** The tables may be searched from strstart without leaving the window. */
    ghost predicate Searchable()
      reads this`hist, this`base, this`dict, this`strstart, this`lookahead, this`flushed, window, head, prev
    {
      && TablesOk() && TextOk()
      && |hist| == Here() + lookahead
      && strstart + MIN_LOOKAHEAD <= 2 * wSize && dict.cursor <= Here() + 1
    }

    /** cur heads a chain of older strings with the key of the current string. */
    ghost predicate Keyed(cur: nat)
      reads this`hist, this`base, this`dict, this`strstart
    {
      && Here() + 3 <= |hist|
      && Here() < |dict.keys|
      && dict.cursor == Here() + 1
      && 0 < cur < strstart <= cur + MaxDist()
      && dict.LinkOk(cur, dict.keys[Here()])
    }

    lemma SearchableQuery()
      requires Searchable()
      ensures TheQuery().Ok()
    {
      hide KeysOf;
    }

    lemma ThirdByteFollows(c: nat)
      requires Searchable() && Keyed(c) && SameRun(window[..], c, strstart, 2)
      ensures SameRun(window[..], c, strstart, 3)
    {
      hide KeysOf, Dict.Ok, Slot;
      ghost var text := window[..];
      RunAt(text, c, strstart, 2, 0); RunAt(text, c, strstart, 2, 1);
      assert text[c] == hist[base + c] && text[c + 1] == hist[base + c + 1] && text[c + 2] == hist[base + c + 2];
      assert text[strstart] == hist[Here()] && text[strstart + 1] == hist[Here() + 1]
             && text[strstart + 2] == hist[Here() + 2];
      assert dict.keys[base + c] == dict.keys[Here()];
      ThirdByteAt(hash, hist, base + c, Here());
    }

    lemma ChainIsGood(good: set<nat>)
      requires Searchable() && TheQuery().Ok()
      requires forall c :: c in good <==> Keyed(c)
      ensures Good(TheQuery(), good)
    {
      hide KeysOf, Dict.Ok, SameRun, Slot;
      var q := TheQuery();
      forall c {:trigger GoodStep(q, good, c)} | c in good ensures GoodStep(q, good, c) {
        if SameRun(q.text, c, q.scan, 2) { ThirdByteFollows(c); }
        NextIsOlder(q, dict, c, dict.keys[Here()]);
      }
    }

    /** A search from cur that starts with a match of before.len bytes: it looks at v, the strings
        with the key of the current one from cur on, the youngest first, and finds the first of the
        longest. It looks at maxChain of them, or a quarter of that if there is a good match
        already; at fewer exactly if it finds a nice match, or all others are out of reach. */
    ghost predicate Searched(cur: nat, v: seq<nat>, before: Best, best: Best)
      reads this`hist, this`base, this`dict, this`strstart, this`lookahead, window
    {
      && Shape() && strstart + MAX_MATCH <= window.Length && Here() < |dict.keys|
      && Youngest(dict, dict.keys[Here()], cur, v)
      && (forall i :: 0 <= i < |v| ==> v[i] < strstart <= v[i] + MaxDist())
      && LongestOf(window[..], strstart, v, before, best)
      && (forall i :: 0 <= i < |v| - 1 ==> NotNice(v[i], before))
      && var most := if before.len >= config.goodLength then config.maxChain / 4 else config.maxChain;
         && |v| <= most
         && (|v| == most || (best.len > before.len && best.len >= Min(config.niceLength, lookahead)) ||
             AllSeen(v[|v| - 1]))
    }

    /** The match at c is no reason to end the search. */
    ghost predicate NotNice(c: nat, before: Best)
      reads this`strstart, this`lookahead, window
    {
      c <= strstart && strstart + MAX_MATCH <= window.Length &&
      var n := Common(window[..], c, strstart, MAX_MATCH);
      n <= before.len || n < Min(config.niceLength, lookahead)
    }

    /** The strings older than c with the key of the current one are out of reach. */
    ghost predicate AllSeen(c: nat)
      reads this`hist, this`base, this`dict, this`strstart
    {
      Here() < |dict.keys| &&
      forall p ::
        p in dict.chained && base < p < base + c && p < |dict.keys| && dict.keys[p] == dict.keys[Here()] ==>
          p + MaxDist() <= Here()
    }

    /** longest_match: cut to the lookahead, what a search of the chain finds. */
    method LongestMatch(hashHead: nat) returns (len: nat, ghost v: seq<nat>, ghost best: Best)
      requires Searchable() && hashHead <= strstart
      requires 1 <= prevLength <= MAX_MATCH
      modifies this`matchStart
      ensures Min(1, lookahead) <= len <= Min(lookahead, MAX_MATCH)
      ensures Keyed(hashHead) ==>
                && Searched(hashHead, v, Best(prevLength, old(matchStart)), best)
                && len == Min(best.len, lookahead) && matchStart == best.start
    {
      hide KeysOf, Dict.Ok, Dict.LinkOk, Slot, Common, Compressor.Searched, Query.Search, Query.Visited;
      SearchableQuery();
      ghost var good := set c | 0 <= c < strstart && Keyed(c);
      ChainIsGood(good);
      var r := SearchChain(window, prev, TheQuery(), good, strstart, hashHead, ChainLength(), Limit(), Nice(),
                           Best(prevLength, matchStart));
      best := r;
      v := if Keyed(hashHead) then TheQuery().Visited(hashHead, ChainLength(), Best(prevLength, matchStart)) else [];
      if Keyed(hashHead) { SearchLooks(hashHead, Best(prevLength, matchStart)); }
      matchStart := r.start;
      len := if r.len <= lookahead then r.len else lookahead;
    }

    /** What the search of the chain looks at. */
    lemma SearchLooks(cur: nat, before: Best)
      requires Searchable() && Keyed(cur) && TheQuery().Ok() && before.len == prevLength
      ensures var q := TheQuery();
              Searched(cur, q.Visited(cur, ChainLength(), before), before, q.Search(cur, ChainLength(), before))
    {
      hide KeysOf, Dict.Ok, Slot, Common, Query.Search, Query.Visited, LongestOf, Youngest;
      var q, chain, h := TheQuery(), ChainLength(), dict.keys[Here()];
      var v := q.Visited(cur, chain, before);
      VisitedIsChain(q, dict, cur, chain, before, h);
      VisitedEnds(q, cur, chain, before);
      forall i | 0 <= i < |v| - 1 ensures NotNice(v[i], before) { NiceIsLast(q, cur, chain, before, i); }
      SearchIsLongest(q, cur, chain, before);
      assert v[0] == cur by { YoungestStart(dict, h, cur, v); }
      forall i | 0 <= i < |v| ensures v[i] < strstart <= v[i] + MaxDist() { assert i > 0 ==> Limit() < v[i]; }
      var c := v[|v| - 1];
      YoungestIs(dict, h, cur, v, |v| - 1);
      if q.Next(c) <= q.limit {
        NextIsOlder(q, dict, c, h);
        OthersOut(c, q.Next(c));
      }
    }

    lemma OthersOut(c: nat, next: nat)
      requires Shape() && Here() < |dict.keys| && dict.base == base
      requires dict.NoneBetween(next, base + c, dict.keys[Here()]) && next <= Limit()
      ensures AllSeen(c)
    {
      forall p |
        p in dict.chained && base < p < base + c && p < |dict.keys| && dict.keys[p] == dict.keys[Here()]
        ensures p + MaxDist() <= Here()
      {
        assert p <= base + next;
      }
    }

    /** What a search finds beyond the old length is a match within reach. */
    lemma FoundIsMatch(cur: nat, v: seq<nat>, before: Best, best: Best)
      requires Searchable() && Keyed(cur) && Searched(cur, v, before, best)
      ensures best == before || (best.len > before.len && MatchAt(best.start, Here(), Min(best.len, lookahead)))
    {
      hide KeysOf, Dict.Ok, Slot, SameRun, Common, Youngest, Compressor.Shape;
      if best == before { return; }
      var text := window[..];
      var k :| 0 <= k < |v| && FirstLongest(text, strstart, v, k, best);
      YoungestIs(dict, dict.keys[Here()], cur, v, k);
      CommonIsRun(text, best.start, strstart, MAX_MATCH);
      ShorterRun(text, best.start, strstart, best.len, Min(best.len, lookahead));
      RunInText(text, hist, base, best.start, strstart, Min(best.len, lookahead));
    }

    /** longest_match, and what it means if it is longer than before. */
    method Find(hashHead: nat) returns (len: nat, ghost v: seq<nat>, ghost best: Best)
      requires Searchable() && lookahead >= 1 && hashHead <= strstart && 1 <= prevLength <= MAX_MATCH
      requires lookahead >= MIN_MATCH ==> Keyed(hashHead)
      modifies this`matchStart
      ensures 1 <= len <= MAX_MATCH
      ensures len >= MIN_MATCH && len > prevLength ==>
                MatchAt(matchStart, Here(), len) && 1 <= strstart - matchStart <= MaxDist()
      ensures Keyed(hashHead) ==>
                && Searched(hashHead, v, Best(prevLength, old(matchStart)), best)
                && len == Min(best.len, lookahead) && matchStart == best.start
    {
      hide Dict.LinkOk, SameRun, Compressor.Searched, Compressor.Searchable, Compressor.Keyed;
      ghost var before := Best(prevLength, matchStart);
      len, v, best := LongestMatch(hashHead);
      if Keyed(hashHead) { FoundIsMatch(hashHead, v, before, best); }
    }

    /** A match of n bytes between window index `from` and position `to`, within reach. */
    ghost predicate MatchAt(from: int, to: nat, n: nat)
      reads this`hist, this`base, this`flushed
    {
      && flushed.at <= base + from < to <= base + from + MaxDist()
      && n <= MAX_MATCH && to + n <= |hist|
      && SameRun(hist, base + from, to, n)
    }

    /** The invariant of deflate_slow between two steps: the output says the text up to
        strstart, less the byte whose fate is still open, and a pending match is a match. */
    ghost predicate SlowOk()
      reads this`hist, this`base, this`dict, this`insH, this`strstart, this`lookahead, this`blockStart,
            this`matchLength, this`prevLength, this`matchStart, this`matchAvailable, this`output, this`preset,
            this`hits, this`flushed, window, head, prev
    {
      && lazy && Aligned() && Sought(Here())
      && (matchAvailable ==> strstart >= 1 && FoundAt(Here() - 1, matchLength, matchStart))
      && 0 <= base + blockStart
      && Told(base + blockStart, if matchAvailable then Here() - 1 else Here())
      && 1 <= matchLength <= MAX_MATCH
      && (matchLength >= MIN_MATCH ==> matchAvailable && MatchAt(matchStart, Here() - 1, matchLength))
    }

    /** The same after the current string has been inserted and searched: the pending match
        has become the previous one. */
    ghost predicate SearchedOk()
      reads this, window, head, prev
    {
      && lazy && Shape() && TablesOk() && TextOk() && Sought(Here() + 1)
      && FoundAt(Here(), NewLength(), matchStart)
      && (matchAvailable ==> strstart >= 1 && FoundAt(Here() - 1, prevLength, prevMatch))
      && |hist| == Here() + lookahead && 1 <= lookahead && strstart + MIN_LOOKAHEAD <= 2 * wSize
      && (base > 0 ==> strstart >= MaxDist())
      && (lookahead >= MIN_MATCH ==> dict.cursor == Here() + 1 && ReadyAt(hash, insH, hist, Here() + 1))
      && dict.cursor <= Here() + 1
      && 0 <= base + blockStart
      && Told(base + blockStart, if matchAvailable then Here() - 1 else Here())
      && 1 <= prevLength <= MAX_MATCH
      && (prevLength >= MIN_MATCH ==> matchAvailable && MatchAt(prevMatch, Here() - 1, prevLength))
      && 1 <= matchLength <= MAX_MATCH
      && (matchLength >= MIN_MATCH && matchLength > prevLength ==> MatchAt(matchStart, Here(), matchLength))
    }

    /** What the search at the current string found beyond the previous match, if anything. */
    function NewLength(): nat
      reads this`matchLength, this`prevLength
    {
      if matchLength > prevLength then matchLength else if matchLength < MIN_MATCH then matchLength else MIN_MATCH - 1
    }

    /** deflate_slow: the search at the current string. A hashHead left over from an earlier
        string is possible when fewer than MIN_MATCH bytes remain. There is no search behind a
        match of maxLazy bytes; what is short or far away is not used. */
    method SearchSlow(hashHead: nat) returns (ghost v: seq<nat>, ghost best: Best)
      requires Searchable() && lookahead >= 1 && lazy && Sought(Here())
      requires 1 <= matchLength <= MAX_MATCH
      requires lookahead >= MIN_MATCH && 0 < hashHead && strstart - hashHead <= MaxDist() ==> Keyed(hashHead)
      modifies this`prevLength, this`prevMatch, this`matchLength, this`matchStart, this`hits
      ensures prevLength == old(matchLength) && prevMatch == old(matchStart)
      ensures 1 <= matchLength <= MAX_MATCH
      ensures matchLength >= MIN_MATCH && matchLength > prevLength ==> MatchAt(matchStart, Here(), matchLength)
      ensures Sought(Here() + 1) && Extends(old(hits), hits) && FoundAt(Here(), NewLength(), matchStart)
      ensures var tried := hashHead != 0 && prevLength < config.maxLazy && 0 <= strstart - hashHead <= MaxDist() &&
                           !strategy.HuffmanOnly?;
              && (!tried ==> matchLength == MIN_MATCH - 1)
              && (tried && Keyed(hashHead) ==>
                    && Searched(hashHead, v, Best(prevLength, prevMatch), best) && matchStart == best.start
                    && var n := Min(best.len, lookahead);
                       matchLength ==
                         if n <= 5 && (strategy.Filtered? || (n == MIN_MATCH && strstart - matchStart > TOO_FAR))
                         then MIN_MATCH - 1 else n)
    {
      hide Dict.LinkOk, SameRun, Compressor.Searched, Compressor.Searchable, Compressor.Keyed, Compressor.Sought,
           Compressor.FoundAt, Extends, Compressor.MatchAt, Compressor.TablesOk, Compressor.TextOk, Youngest;
      SearchableShape();
      prevLength, prevMatch := matchLength, matchStart;
      matchLength := MIN_MATCH - 1;
      v, best := [], Best(0, 0);
      if hashHead != 0 && prevLength < config.maxLazy && 0 <= strstart - hashHead <= MaxDist() {
        if !strategy.HuffmanOnly? {
          matchLength, v, best := Find(hashHead);
        }
        if matchLength <= 5 && (strategy.Filtered? || (matchLength == MIN_MATCH && strstart - matchStart > TOO_FAR)) {
          matchLength := MIN_MATCH - 1;
        }
      }
      Record(NewLength());
    }

    /** What the search at the current string found. */
    method Record(len: nat)
      requires Shape() && Sought(Here())
      requires len >= MIN_MATCH ==> Worthy(Hit(len, strstart - matchStart))
      modifies this`hits
      ensures Sought(Here() + 1) && Extends(old(hits), hits) && FoundAt(Here(), len, matchStart)
    {
      hits := hits[Here() := Hit(len, if len >= MIN_MATCH then strstart - matchStart else 0)];
    }

    lemma SearchableShape()
      requires Searchable()
      ensures Shape() && TablesOk() && |hist| == Here() + lookahead
    {
      hide KeysOf, Dict.Ok;
    }

    /** FLUSH_BLOCK_ONLY: the tallied tokens become a block together with the bytes they
        stand for, unless those have left the window. */
    method FlushBlockOnly(last: bool)
      requires TextOk() && Here() <= |hist| && strstart < 2 * wSize && 0 <= base + blockStart
      requires Told(base + blockStart, Here()) && Writing() && out.w.Valid()
      modifies this`output, this`blockStart, out`lastEobLen, out`ps, out`pad, out.w
      ensures blockStart == strstart && Told(Here(), Here()) && output.tokens == []
      ensures old(base + blockStart) <= Here() && output.blocks == old(output.blocks) + [Block(old(output.tokens),
                if old(blockStart) >= 0 then Some(hist[old(base + blockStart)..Here()]) else None,
                Here() - old(base + blockStart), last)]
      ensures out.Wrote(output.blocks) && out.tail == [] && (if last then out.w.biValid == 0 else out.Open())
      ensures old(out.w.nextOut) <= out.w.nextOut &&
              |out.w.nextOut| + out.w.availOut == old(|out.w.nextOut| + out.w.availOut)
      ensures out.w.availOut > 0 ==> out.w.Valid() && out.w.nextOut == out.w.Bytes()
    {
      hide Tells, BlockWriter.Wrote, BitWriter.Bytes, Compressor.TextOk;
      ghost var start := base + blockStart;
      TextFits();
      ShortDistances(start, Here());
      var buf := None;
      if blockStart >= 0 {
        buf := Some(window[blockStart..strstart]);
        WindowSlice(blockStart, strstart);
      }
      TellsFlush(ThePast(), output, hist, start, Here(), buf, last);
      var b := Block(output.tokens, buf, strstart - blockStart, last);
      out.WriteBlock(b, output.blocks);
      output := output.Flush(buf, strstart - blockStart, last);
      blockStart := strstart;
    }

    lemma ShortDistances(start: nat, n: nat)
      requires Told(start, n)
      ensures start <= n <= |hist| && forall i :: 0 <= i < |output.tokens| ==> output.tokens[i].dist <= MaxDist()
    {
      hide Expand, Meaning, StoredAgrees, Reaching, AllReaching, Parsed, Restarts;
      ReachingAtMost(MaxDist(), hist[..start], output.tokens);
    }

    /** The string at strstart is in the dictionary if it is complete, and the running hash
        is ready for the next one. */
    ghost predicate Inserted()
      reads this`hist, this`base, this`dict, this`insH, this`strstart
    {
      && dict.cursor <= Here() + 1
      && (Here() + MIN_MATCH <= |hist| ==> dict.cursor == Here() + 1 && ReadyAt(hash, insH, hist, Here() + 1))
    }

    /** All complete strings from position n up to the current one have been inserted. */
    ghost predicate AllInserted(n: nat)
      reads this`hist, this`base, this`dict, this`strstart
    {
      forall p :: n <= p <= Here() && p + MIN_MATCH <= |hist| ==> p in dict.chained
    }

    /** deflate_slow: moves strstart on by steps, inserting every complete string. */
    method InsertMatch(oldHead: nat, steps: nat, maxInsert: int) returns (hashHead: nat)
      requires TablesOk() && TextOk() && Inserted()
      requires Here() + steps < |hist| && base + maxInsert + MIN_MATCH == |hist|
      modifies this`strstart, this`insH, this`dict, head, prev
      ensures TablesOk() && Inserted() && strstart == old(strstart) + steps
      ensures old(dict.chained) <= dict.chained && AllInserted(old(Here()) + 1)
    {
      hide KeysOf, ReadyAt, Dict.Ok, Dict.LinkOk, Slot, Dict.NoneBetween;
      hashHead := oldHead;
      var left := steps;
      while left > 0
        invariant 0 <= left <= steps
        invariant TablesOk() && Inserted() && strstart == old(strstart) + (steps - left)
        invariant old(dict.chained) <= dict.chained && AllInserted(old(Here()) + 1)
      {
        strstart := strstart + 1;
        if strstart <= maxInsert {
          hashHead := InsertString(strstart);
        }
        left := left - 1;
      }
    }

    /** deflate_slow: the previous match is adopted and all its strings are inserted. */
    method EmitPrevious(oldHead: nat) returns (full: bool, hashHead: nat)
      requires SearchedOk() && prevLength >= MIN_MATCH && matchLength <= prevLength
      modifies this`output, this`strstart, this`lookahead, this`prevLength, this`insH, this`dict,
               this`matchAvailable, this`matchLength, head, prev
      ensures SlowOk() && !matchAvailable && strstart < 2 * wSize
      ensures Here() == old(Here()) + old(prevLength) - 1 && output.blocks == old(output.blocks)
      ensures output.tokens == old(output.tokens) + [TokenOf(old(strstart - 1 - prevMatch), old(prevLength))]
      ensures full == (|output.tokens| == litBufSize - 1)
      ensures old(dict.chained) <= dict.chained
      ensures forall p :: old(Here()) < p < Here() && p + MIN_MATCH <= |hist| ==> p in dict.chained
    {
      hide KeysOf, ReadyAt, SameRun, Tells, Compressor.TextOk, Compressor.TablesOk, Compressor.MatchAt;
      MatchSizes(prevMatch, Here() - 1, prevLength);
      var maxInsert := strstart + lookahead - MIN_MATCH;
      full := TallyMatch(strstart - 1 - prevMatch, prevLength, Here() - 1, prevMatch);
      lookahead := lookahead - (prevLength - 1);
      hashHead := InsertMatch(oldHead, prevLength - 2, maxInsert);
      EndMatch();
    }

    lemma MatchSizes(from: int, to: nat, n: nat)
      requires MatchAt(from, to, n) && Shape()
      ensures n <= MAX_MATCH && 0 < to - base - from < 0x10000
    {
    }

    method EndMatch()
      requires lazy && TablesOk() && TextOk() && Inserted() && |hist| == Here() + 1 + lookahead
      requires Sought(Here() + 1) && (base > 0 ==> strstart >= MaxDist())
      requires 0 <= base + blockStart && Told(base + blockStart, Here() + 1)
      modifies this`prevLength, this`matchAvailable, this`matchLength, this`strstart
      ensures SlowOk() && !matchAvailable && strstart == old(strstart) + 1
    {
      hide KeysOf, ReadyAt, Tells, Compressor.TextOk, Compressor.TablesOk;
      prevLength := 0;
      matchAvailable, matchLength := false, MIN_MATCH - 1;
      strstart := strstart + 1;
    }

    /** _tr_tally_dist for a match between window index `from` and position n. */
    method TallyMatch(dist: int, len: nat, ghost n: nat, ghost from: int) returns (full: bool)
      requires dist > 0 && len >= MIN_MATCH && n in hits && hits[n] == Hit(len, dist)
      requires lazy ==> n + 1 in hits && hits[n + 1].len <= len
      requires Shape() && 0 <= base + blockStart && Told(base + blockStart, n)
      requires MatchAt(from, n, len) && dist == n - base - from && MIN_MATCH <= len
      modifies this`output
      ensures n + len <= |hist| && Told(base + blockStart, n + len)
      ensures output == old(output).(tokens := old(output.tokens) + [Token(dist, len - MIN_MATCH)])
      ensures full == (|output.tokens| == litBufSize - 1)
    {
      hide SameRun, Tells;
      TallyExact(output, dist, len - MIN_MATCH);
      TellsMatch(ThePast(), output, hist, base + blockStart, n, base + from, len);
      output := output.Tally(dist, len - MIN_MATCH);
      full := |output.tokens| == litBufSize - 1;
    }

    /** deflate_slow: once the output says the text up to strstart, the byte there becomes
        the open one, with the match found for it. */
    method MoveOn()
      requires lazy && TablesOk() && TextOk() && Inserted() && |hist| == Here() + lookahead && lookahead >= 1
      requires 0 <= base + blockStart && Told(base + blockStart, Here()) && (base > 0 ==> strstart >= MaxDist())
      requires matchAvailable && 1 <= matchLength <= MAX_MATCH
      requires Sought(Here() + 1) && FoundAt(Here(), matchLength, matchStart)
      requires matchLength >= MIN_MATCH ==> MatchAt(matchStart, Here(), matchLength)
      modifies this`strstart, this`lookahead
      ensures SlowOk() && Here() == old(Here()) + 1
    {
      hide KeysOf, ReadyAt, SameRun, Tells, Compressor.TextOk, Compressor.TablesOk;
      strstart := strstart + 1;
      lookahead := lookahead - 1;
    }

    /** The literal for position p. */
    ghost function LiteralAt(p: int): Token
      reads this`hist
    {
      Token(0, if 0 <= p < |hist| then hist[p] else 0)
    }

    /** The token for a match. */
    ghost function TokenOf(dist: int, len: int): Token {
      if dist > 0 && MIN_MATCH <= len <= MAX_MATCH then Token(dist, len - MIN_MATCH) else Token(0, 0)
    }

    /** The tokens ts have been tallied; if that made the buffers full, they went out as a block that
        is not the last. */
    ghost predicate Grew(was: Output, ts: seq<Token>)
      reads this`output
    {
      var tokens := was.tokens + ts;
      if |tokens| == litBufSize - 1 && ts != [] then
        && output.tokens == [] && |output.blocks| == |was.blocks| + 1 && output.blocks[..|was.blocks|] == was.blocks
        && output.blocks[|was.blocks|].tokens == tokens && !output.blocks[|was.blocks|].last
      else
        output == Output(was.blocks, tokens)
    }

    /** deflate_slow: the byte before strstart becomes a literal. */
    method EmitLiteral() returns (full: bool)
      requires SearchedOk() && matchAvailable && Writing() && out.w.Valid() && out.w.availOut > 0 && NoLast()
      requires prevLength < MIN_MATCH || matchLength > prevLength
      modifies this`output, this`blockStart, out`lastEobLen, out`ps, out`pad, out.w
      ensures 0 <= base + blockStart && Told(base + blockStart, Here())
      ensures Writing() && NoLast() && full == (|old(output.tokens)| + 1 == litBufSize - 1)
      ensures Grew(old(output), [LiteralAt(Here() - 1)])
      ensures old(out.w.nextOut) <= out.w.nextOut &&
              |out.w.nextOut| + out.w.availOut == old(|out.w.nextOut| + out.w.availOut)
      ensures (full || out.w.availOut > 0) && (out.w.availOut > 0 ==> out.w.Valid())
    {
      hide KeysOf, ReadyAt, SameRun, Tells, Compressor.TextOk, Compressor.TablesOk, Compressor.MatchAt,
           BlockWriter.Wrote, BitWriter.Bytes;
      TellsLiteral(ThePast(), output, hist, base + blockStart, Here() - 1);
      WindowByte(strstart - 1);
      TallyExact(output, 0, window[strstart - 1]);
      output := output.Tally(0, window[strstart - 1]);
      full := |output.tokens| == litBufSize - 1;
      if full { FlushBlockOnly(false); }
    }

    /** The current string is inserted if it is complete; the head of its chain is the youngest older
        string of its key. */
    method InsertHere(oldHead: nat) returns (hashHead: nat)
      requires Aligned() && lookahead >= 1 && strstart + MIN_LOOKAHEAD <= 2 * wSize
      modifies this`insH, this`dict, head, prev
      ensures Searchable() && Inserted() && old(dict.chained) <= dict.chained
      ensures Here() + MIN_MATCH <= |hist| ==> Here() in dict.chained
      ensures lookahead >= MIN_MATCH && 0 < hashHead && strstart - hashHead <= MaxDist() ==> Keyed(hashHead)
      ensures lookahead >= MIN_MATCH ==>
                Here() < |dict.keys| && old(dict).NoneBetween(hashHead, Here(), dict.keys[Here()])
    {
      hide KeysOf, ReadyAt, Dict.Ok, Slot, Dict.NoneBetween;
      hashHead := oldHead;
      if lookahead >= MIN_MATCH {
        hashHead := InsertString(strstart);
      }
    }

    /** deflate_slow: inserts the current string and searches its chain. */
    method InsertAndSearch(oldHead: nat) returns (hashHead: nat)
      requires SlowOk() && lookahead >= 1 && strstart + MIN_LOOKAHEAD <= 2 * wSize
      modifies this`insH, this`dict, this`prevLength, this`prevMatch, this`matchLength, this`matchStart, this`hits,
               head, prev
      ensures SearchedOk() && Extends(old(hits), hits) && Here() in hits && hits[Here()].len == NewLength()
      ensures prevLength == old(matchLength) && prevMatch == old(matchStart)
      ensures Here() + MIN_MATCH <= |hist| ==> Here() in dict.chained
    {
      hide KeysOf, ReadyAt, SameRun, Tells, Dict.Ok, Dict.LinkOk, Slot, Dict.NoneBetween, Compressor.Searched,
           Compressor.Keyed, Compressor.MatchAt, Compressor.TextOk, Compressor.TablesOk, Compressor.Sought;
      ghost var past := ThePast();
      hashHead := InsertHere(oldHead);
      SearchableShape();
      ghost var v, best := SearchSlow(hashHead);
      TellsHits(past, hits, output, hist, base + blockStart, if matchAvailable then Here() - 1 else Here());
    }

    /** deflate_slow: a full block goes out behind an adopted match. */
    method FlushFull()
      requires SlowOk() && !matchAvailable && strstart < 2 * wSize && Writing() && out.w.Valid() && NoLast()
      modifies this`output, this`blockStart, out`lastEobLen, out`ps, out`pad, out.w
      ensures output.tokens == [] && |output.blocks| == |old(output.blocks)| + 1
      ensures output.blocks[..|old(output.blocks)|] == old(output.blocks)
      ensures output.blocks[|old(output.blocks)|].tokens == old(output.tokens)
      ensures SlowOk() && Writing() && NoLast() && (out.w.availOut > 0 ==> out.w.Valid())
      ensures old(out.w.nextOut) <= out.w.nextOut &&
              |out.w.nextOut| + out.w.availOut == old(|out.w.nextOut| + out.w.availOut)
    {
      hide KeysOf, ReadyAt, SameRun, Tells, Compressor.TextOk, Compressor.TablesOk, Compressor.MatchAt,
           BlockWriter.Wrote, BitWriter.Bytes, BlockWriter.Open;
      FlushBlockOnly(false);
    }

    /** deflate_slow: the byte before strstart becomes a literal, or the current one the first to
        be open. */
    method StepOne() returns (full: bool)
      requires SearchedOk() && (prevLength < MIN_MATCH || matchLength > prevLength)
      requires Writing() && out.w.Valid() && out.w.availOut > 0 && NoLast()
      modifies this`output, this`blockStart, this`strstart, this`lookahead, this`matchAvailable, out`lastEobLen, out`ps,
               out`pad, out.w
      ensures SlowOk() && matchAvailable && Here() == old(Here()) + 1 && Writing() && NoLast()
      ensures Grew(old(output), if old(matchAvailable) then [LiteralAt(Here() - 2)] else [])
      ensures (full || out.w.availOut > 0) && (out.w.availOut > 0 ==> out.w.Valid())
      ensures old(out.w.nextOut) <= out.w.nextOut &&
              |out.w.nextOut| + out.w.availOut == old(|out.w.nextOut| + out.w.availOut)
    {
      hide KeysOf, ReadyAt, SameRun, Tells, Compressor.TextOk, Compressor.TablesOk, Compressor.MatchAt,
           BlockWriter.Wrote, BitWriter.Bytes, BlockWriter.Open;
      full := false;
      if matchAvailable {
        full := EmitLiteral();
      } else {
        matchAvailable := true;
      }
      MoveOn();
    }

    lemma PendingIsOpen()
      requires SlowOk()
      ensures litBufSize >= 2 && (matchLength >= MIN_MATCH ==> matchAvailable)
    {
      hide KeysOf, ReadyAt, SameRun, Tells, Compressor.TextOk, Dict.Ok, Compressor.MatchAt;
    }

    /** There is a place left in d_buf and l_buf. */
    ghost predicate Roomy()
      reads this`output
    {
      |output.tokens| < litBufSize - 1
    }

    /** One iteration of deflate_slow, with fewer or at least MIN_MATCH bytes ahead. A pending match
        becomes a token if it has at least MIN_MATCH bytes and the search at the current string
        finds nothing longer; otherwise the byte before the current one becomes a literal, and what
        was found is pending. The output buffer may be found full only after a block has been
        flushed. */
    method SlowStep(oldHead: nat) returns (hashHead: nat, stop: bool)
      requires SlowOk() && Roomy() && lookahead >= 1 && strstart + MIN_LOOKAHEAD <= 2 * wSize
      requires Writing() && out.w.Valid() && out.w.availOut > 0 && NoLast()
      modifies this`insH, this`dict, this`prevLength, this`prevMatch, this`matchLength, this`matchStart, this`hits,
               this`output, this`blockStart, this`strstart, this`lookahead, this`matchAvailable, head, prev,
               out`lastEobLen, out`ps, out`pad, out.w
      ensures SlowOk() && Roomy() && Here() > old(Here()) && Writing() && NoLast() && Extends(old(hits), hits)
      ensures old(Here()) in hits
      ensures var found, n := hits[old(Here())].len, old(matchLength);
              if old(matchAvailable) && n >= MIN_MATCH && found <= n then
                && !matchAvailable && Here() == old(Here()) - 1 + n
                && Grew(old(output), [TokenOf(old(strstart - 1 - matchStart), n)])
              else
                && matchAvailable && Here() == old(Here()) + 1 && matchLength == found
                && Grew(old(output), if old(matchAvailable) then [LiteralAt(Here() - 2)] else [])
      ensures forall p :: old(Here()) <= p < Here() && p + MIN_MATCH <= |hist| ==> p in dict.chained
      ensures old(out.w.nextOut) <= out.w.nextOut &&
              |out.w.nextOut| + out.w.availOut == old(|out.w.nextOut| + out.w.availOut)
      ensures stop <==> out.w.availOut == 0
      ensures !stop ==> out.w.Valid()
    {
      hide KeysOf, ReadyAt, SameRun, Tells, Compressor.TextOk, Compressor.TablesOk, Compressor.MatchAt,
           BlockWriter.Wrote, BitWriter.Bytes, BlockWriter.Open, Compressor.SlowOk, Compressor.SearchedOk;
      PendingIsOpen();
      hashHead := InsertAndSearch(oldHead);
      var full := false;
      if prevLength >= MIN_MATCH && matchLength <= prevLength {
        full, hashHead := EmitPrevious(hashHead);
        if full { FlushFull(); }
      } else {
        full := StepOne();
      }
      stop := full && out.w.availOut == 0;
    }

    /** fill_window, seen from deflate_slow: positions and pending match survive the slide. */
    method FillSlow()
      requires SlowOk() && lookahead < MIN_LOOKAHEAD && Summed()
      modifies this`strstart, this`lookahead, this`matchStart, this`blockStart, this`insH, this`availIn, this`adler,
               this`hist, this`base, this`dict, window, head, prev
      ensures Summed() && SlowOk() && strstart + MIN_LOOKAHEAD <= 2 * wSize
      ensures Here() == old(Here()) && hist + availIn == old(hist + availIn)
      ensures lookahead < MIN_LOOKAHEAD ==> availIn == []
    {
      hide KeysOf, ReadyAt, SameRun, Tells, Compressor.TextOk, Compressor.TablesOk;
      ghost var text, from := hist, base + matchStart;
      FillWindow();
      PrefixOfSame(text, old(availIn), hist, availIn);
      TellsMore(ThePast(), output, text, hist, base + blockStart, if matchAvailable then Here() - 1 else Here());
      if matchLength >= MIN_MATCH { RunGrows(text, hist, from, Here() - 1, matchLength); }
    }

    /** The blocks flushed so far decode, behind the preset dictionary, to all input taken, and those
        behind the last full flush decode on their own. */
    ghost predicate AllSaid()
      reads this`hist, this`preset, this`output, this`flushed, this`hits
    {
      && output.tokens == [] && preset <= |hist|
      && Meaning(hist[..preset], output.blocks) == hist
      && StoredAgrees(hist[..preset], output.blocks)
      && AllReaching(MaxDist(), hist[..preset], output.blocks)
      && Told(|hist|, |hist|)
    }

    lemma SaidToTheEnd(n: nat)
      requires Told(n, n) && n == |hist| && output.tokens == []
      ensures AllSaid()
    {
      assert hist[..n] == hist;
    }

    /** No match begins at the last byte. */
    lemma NothingPending()
      requires SlowOk() && lookahead == 0
      ensures matchLength < MIN_MATCH
    {
      hide KeysOf, ReadyAt, SameRun, Tells, Compressor.TextOk, Compressor.TablesOk;
    }

    /** deflate_slow behind its loop: the open byte becomes a literal. */
    method CloseLiteral()
      requires SlowOk() && lookahead == 0
      modifies this`output, this`matchAvailable
      ensures SlowOk() && !matchAvailable && output.blocks == old(output.blocks)
    {
      hide KeysOf, ReadyAt, SameRun, Tells, Compressor.TextOk, Compressor.TablesOk;
      if matchAvailable {
        NothingPending();
        TellsLiteral(ThePast(), output, hist, base + blockStart, Here() - 1);
        WindowByte(strstart - 1);
        TallyExact(output, 0, window[strstart - 1]);
        output := output.Tally(0, window[strstart - 1]);
        matchAvailable := false;
      }
    }

    /** The block that ends here. */
    method FinishSlow(last: bool)
      requires SlowOk() && lookahead == 0 && strstart < 2 * wSize && Writing() && out.w.Valid()
      modifies this`output, this`blockStart, this`matchAvailable, out`lastEobLen, out`ps, out`pad, out.w
      ensures SlowOk() && !matchAvailable && blockStart == strstart && AllSaid()
      ensures |output.blocks| == |old(output.blocks)| + 1 && output.blocks[..|old(output.blocks)|] == old(output.blocks)
      ensures output.blocks[|old(output.blocks)|].last == last
      ensures out.Wrote(output.blocks) && out.tail == [] && (if last then out.w.biValid == 0 else out.Open())
      ensures old(out.w.nextOut) <= out.w.nextOut &&
              |out.w.nextOut| + out.w.availOut == old(|out.w.nextOut| + out.w.availOut)
      ensures out.w.availOut > 0 ==> out.w.Valid() && out.w.nextOut == out.w.Bytes()
    {
      hide KeysOf, ReadyAt, SameRun, Tells, Compressor.TextOk, Compressor.TablesOk, Compressor.MatchAt,
           BlockWriter.Wrote, BitWriter.Bytes, BlockWriter.Open, Compressor.AllSaid;
      CloseLiteral();
      FlushBlockOnly(last);
      SaidToTheEnd(Here());
    }

    /** All text has been said, in whole blocks. */
    ghost predicate Settled()
      reads this`hist, this`base, this`strstart, this`blockStart, this`matchAvailable, this`preset, this`output,
            this`lookahead, this`hits, this`flushed
    {
      && lookahead == 0 && Here() == |hist| && blockStart == strstart && (lazy ==> !matchAvailable) &&
         output.tokens == []
      && Told(Here(), Here())
    }

    lemma Flags(before: seq<Block>, last: bool)
      requires |output.blocks| == |before| + 1 && output.blocks[..|before|] == before
      requires output.blocks[|before|].last == last
      requires forall i :: 0 <= i < |before| ==> !before[i].last
      ensures if last then LastOnly() else NoLast()
    {
    }

    /** What a matching function has done, by what it returns. */
    ghost predicate Matched(flush: Flush, state: BlockState)
      reads this`hist, this`base, this`strstart, this`blockStart, this`matchAvailable, this`preset, this`output,
            this`availIn, this`lookahead, this`hits, this`flushed, out`head, out`ps, out`mark, out`offset, out`pad,
            out`tail, out.w`pendingBuf, out.w`pendingOut, out.w`nextOut, out.w`biBuf, out.w`biValid, out.w`availOut
    {
      && out.Wrote(output.blocks)
      && (state.NeedMore? || state.BlockDone? ==> out.Open() && NoLast())
      && (state.NeedMore? ==>
            out.w.availOut == 0 ||
            (flush == NoFlush && availIn == [] && lookahead < MIN_LOOKAHEAD && out.w.Valid()))
      && (!state.NeedMore? ==> availIn == [] && Settled() && flush != NoFlush)
      && (state.FinishStarted? || state.FinishDone? <==> flush == Finish && !state.NeedMore?)
      && (state.FinishStarted? || state.FinishDone? ==> out.tail == [] && out.w.biValid == 0 && LastOnly())
      && (state.FinishStarted? ==> out.w.availOut == 0)
      && (state.BlockDone? || state.FinishDone? ==>
            out.w.availOut > 0 && out.w.Valid() && out.w.nextOut == out.w.Bytes())
    }

    /** The final block, and no other, is marked as the last. */
    ghost predicate LastOnly()
      reads this`output
    {
      output.blocks != [] && forall i :: 0 <= i < |output.blocks| ==>
        (output.blocks[i].last <==> i == |output.blocks| - 1)
    }

    /** deflate_slow behind its loop. */
    method EndSlow(flush: Flush) returns (state: BlockState)
      requires SlowOk() && lookahead == 0 && availIn == [] && flush != NoFlush && strstart < 2 * wSize
      requires Writing() && out.w.Valid() && out.w.availOut > 0 && NoLast()
      modifies this`output, this`blockStart, this`matchAvailable, out`lastEobLen, out`ps, out`pad, out.w
      ensures SlowOk() && Roomy() && Matched(flush, state)
      ensures old(out.w.nextOut) <= out.w.nextOut &&
              |out.w.nextOut| + out.w.availOut == old(|out.w.nextOut| + out.w.availOut)
    {
      hide KeysOf, ReadyAt, SameRun, Tells, Compressor.TextOk, Compressor.TablesOk, Compressor.MatchAt,
           BlockWriter.Wrote, BitWriter.Bytes, BlockWriter.Open, Compressor.LastOnly;
      ghost var blocks := output.blocks;
      PendingIsOpen();
      FinishSlow(flush == Finish);
      Flags(blocks, flush == Finish);
      if out.w.availOut == 0 { return if flush == Finish then FinishStarted else NeedMore; }
      return if flush == Finish then FinishDone else BlockDone;
    }

    lemma SlowFits()
      requires SlowOk()
      ensures Here() + lookahead == |hist| && strstart <= 2 * wSize &&
              (lookahead >= MIN_LOOKAHEAD ==> strstart + MIN_LOOKAHEAD <= 2 * wSize)
    {
      hide KeysOf, ReadyAt, SameRun, Tells, Compressor.TablesOk, Compressor.MatchAt;
    }

    /** deflate_slow. */
    method DeflateSlow(flush: Flush) returns (state: BlockState)
      requires SlowOk() && Roomy() && Summed() && Writing() && out.w.Valid() && out.w.availOut > 0 && NoLast()
      modifies this`insH, this`strstart, this`lookahead, this`blockStart, this`matchLength, this`prevLength,
               this`matchStart, this`prevMatch, this`matchAvailable, this`output, this`availIn, this`adler, this`hist,
               this`base, this`dict, this`hits, window, head, prev, out`lastEobLen, out`ps, out`pad, out.w
      ensures Roomy() && Extends(old(hits), hits)
      ensures SlowOk() && Summed() && hist + availIn == old(hist + availIn)
      ensures Matched(flush, state)
      ensures old(out.w.nextOut) <= out.w.nextOut &&
              |out.w.nextOut| + out.w.availOut == old(|out.w.nextOut| + out.w.availOut)
    {
      hide KeysOf, ReadyAt, SameRun, Tells, Compressor.TextOk, Compressor.TablesOk, Compressor.MatchAt,
           BlockWriter.Wrote, BitWriter.Bytes, BlockWriter.Open, Checksum, Compressor.Settled, Compressor.LastOnly,
           Compressor.AllSaid, Compressor.SlowOk, Compressor.FastOk, Compressor.Summed, Compressor.Grew,
           Compressor.Roomy;
      var hashHead: nat := 0;
      while true
        invariant SlowOk() && Roomy() && Extends(old(hits), hits) && Summed() && hist + availIn == old(hist + availIn)
        invariant Writing() && out.w.Valid() && out.w.availOut > 0 && NoLast()
        invariant old(out.w.nextOut) <= out.w.nextOut &&
                  |out.w.nextOut| + out.w.availOut == old(|out.w.nextOut| + out.w.availOut)
        decreases |hist + availIn| - Here()
      {
        if lookahead < MIN_LOOKAHEAD {
          FillSlow();
          if lookahead < MIN_LOOKAHEAD && flush == NoFlush { return NeedMore; }
          if lookahead == 0 { break; }
        } else {
          SlowFits();
        }
        var stop: bool;
        hashHead, stop := SlowStep(hashHead);
        SlowFits();
        if stop { return NeedMore; }
      }
      state := EndSlow(flush);
    }

    /** The invariant of deflate_fast between two steps. */
    ghost predicate FastOk()
      reads this`hist, this`base, this`dict, this`insH, this`strstart, this`lookahead, this`blockStart,
            this`matchLength, this`prevLength, this`matchStart, this`matchAvailable, this`output, this`preset,
            this`hits, this`flushed, window, head, prev
    {
      && !lazy && Aligned() && Sought(Here())
      && 0 <= base + blockStart
      && Told(base + blockStart, Here())
      && matchLength < MIN_MATCH && prevLength == MIN_MATCH - 1
    }

    method FillFast()
      requires FastOk() && lookahead < MIN_LOOKAHEAD && Summed()
      modifies this`strstart, this`lookahead, this`matchStart, this`blockStart, this`insH, this`availIn, this`adler,
               this`hist, this`base, this`dict, window, head, prev
      ensures Summed() && FastOk() && strstart + MIN_LOOKAHEAD <= 2 * wSize
      ensures Here() == old(Here()) && hist + availIn == old(hist + availIn)
      ensures lookahead < MIN_LOOKAHEAD ==> availIn == []
    {
      hide KeysOf, ReadyAt, Tells, Compressor.TextOk, Compressor.TablesOk;
      ghost var text := hist;
      FillWindow();
      PrefixOfSame(text, old(availIn), hist, availIn);
      TellsMore(ThePast(), output, text, hist, base + blockStart, Here());
    }

    /** deflate_fast: inserts the current string and searches its chain. */
    method SearchFast(oldHead: nat) returns (hashHead: nat, ghost v: seq<nat>, ghost best: Best)
      requires FastOk() && lookahead >= 1 && strstart + MIN_LOOKAHEAD <= 2 * wSize
      modifies this`insH, this`dict, this`matchLength, this`matchStart, this`hits, head, prev
      ensures TablesOk() && Inserted() && matchLength <= MAX_MATCH
      ensures matchLength >= MIN_MATCH ==> MatchAt(matchStart, Here(), matchLength)
      ensures Sought(Here() + 1) && Extends(old(hits), hits) && FoundAt(Here(), matchLength, matchStart)
      ensures Told(base + blockStart, Here())
      ensures Here() + MIN_MATCH <= |hist| ==> Here() in dict.chained
      ensures var tried := hashHead != 0 && 0 <= strstart - hashHead <= MaxDist() && !strategy.HuffmanOnly?;
              && (!tried ==> matchLength < MIN_MATCH)
              && (tried && Keyed(hashHead) ==>
                    && Searched(hashHead, v, Best(MIN_MATCH - 1, old(matchStart)), best)
                    && matchStart == best.start && matchLength == Min(best.len, lookahead))
    {
      hide KeysOf, ReadyAt, SameRun, Tells, Compressor.Searched, Compressor.Keyed, Dict.NoneBetween, Compressor.Sought,
           Compressor.FoundAt, Extends, Compressor.MatchAt, Compressor.TextOk, Compressor.TablesOk, Params.Valid,
           Compressor.Worthy;
      ghost var past := ThePast();
      v, best := [], Best(0, 0);
      hashHead := InsertHere(oldHead);
      assert Shape() && TablesOk() by { SearchableShape(); }
      if hashHead != 0 && 0 <= strstart - hashHead <= MaxDist() && !strategy.HuffmanOnly? {
        matchLength, v, best := Find(hashHead);
      }
      Record(matchLength);
      TellsHits(past, hits, output, hist, base + blockStart, Here());
    }

    /** deflate_fast: inserts the strings inside a match, all of them complete. */
    method InsertInside(oldHead: nat, steps: nat) returns (hashHead: nat)
      requires TablesOk() && TextOk() && Inserted() && Here() + steps + MIN_MATCH <= |hist|
      modifies this`strstart, this`insH, this`dict, head, prev
      ensures TablesOk() && Inserted() && strstart == old(strstart) + steps
      ensures old(dict.chained) <= dict.chained && AllInserted(old(Here()) + 1)
    {
      hide KeysOf, ReadyAt, Dict.Ok, Dict.LinkOk, Slot, Dict.NoneBetween;
      hashHead := oldHead;
      var left := steps;
      while left > 0
        invariant 0 <= left <= steps
        invariant TablesOk() && Inserted() && strstart == old(strstart) + (steps - left)
        invariant old(dict.chained) <= dict.chained && AllInserted(old(Here()) + 1)
      {
        strstart := strstart + 1;
        hashHead := InsertString(strstart);
        left := left - 1;
      }
    }

    /** deflate_fast: moves past a match of matchLength bytes, inserting its strings only if
        it is short. */
    method SkipMatch(oldHead: nat) returns (hashHead: nat)
      requires TablesOk() && TextOk() && Inserted() && |hist| == Here() + lookahead
      requires MIN_MATCH <= matchLength <= MAX_MATCH && matchLength <= lookahead
      requires strstart + MIN_LOOKAHEAD <= 2 * wSize && (base > 0 ==> strstart >= MaxDist())
      modifies this`strstart, this`lookahead, this`matchLength, this`insH, this`dict, head, prev
      ensures Aligned() && Here() == old(Here() + matchLength) && matchLength == 0
      ensures old(dict.chained) <= dict.chained
      ensures if old(matchLength) <= config.maxLazy && lookahead >= MIN_MATCH
              then forall p :: old(Here()) < p < Here() ==> p in dict.chained
              else dict == old(dict)
    {
      hide KeysOf, ReadyAt, Compressor.TextOk, Compressor.TablesOk, Params.Valid;
      TextFits();
      hashHead := oldHead;
      lookahead := lookahead - matchLength;
      if matchLength <= config.maxLazy && lookahead >= MIN_MATCH {
        hashHead := InsertInside(hashHead, matchLength - 1);
        matchLength := 0;
        strstart := strstart + 1;
      } else {
        JumpOver();
      }
    }

    /** deflate_fast: moves past a match without inserting its strings, and restarts the running hash. */
    method JumpOver()
      requires TablesOk() && TextOk() && dict.cursor <= Here() + 1 && |hist| == Here() + matchLength + lookahead
      requires matchLength >= MIN_MATCH && strstart + matchLength + 1 < 2 * wSize
      requires base > 0 ==> strstart >= MaxDist()
      modifies this`strstart, this`matchLength, this`insH
      ensures Aligned() && Here() == old(Here() + matchLength) && matchLength == 0
    {
      hide KeysOf, ReadyAt, Compressor.TextOk, Compressor.TablesOk, Params.Valid;
      TextFits();
      strstart := strstart + matchLength;
      matchLength := 0;
      if lookahead >= 2 { WindowByte(strstart); WindowByte(strstart + 1); }
      insH := FreshHash(hash, window[strstart], window[strstart + 1], hist, Here());
    }

    /** deflate_fast: the current byte becomes a literal. */
    method FastLiteral() returns (full: bool)
      requires !lazy && TablesOk() && TextOk() && Inserted() && |hist| == Here() + lookahead && lookahead >= 1
      requires 0 <= base + blockStart && Told(base + blockStart, Here()) && (base > 0 ==> strstart >= MaxDist())
      requires Here() in hits && hits[Here()].len < MIN_MATCH
      modifies this`output, this`strstart, this`lookahead
      ensures Aligned() && Here() == old(Here()) + 1 && full == (|output.tokens| == litBufSize - 1)
      ensures Told(base + blockStart, Here())
      ensures output == Output(old(output.blocks), old(output.tokens) + [Token(0, hist[Here() - 1])])
    {
      hide KeysOf, ReadyAt, Tells, Compressor.TextOk, Compressor.TablesOk;
      TellsLiteral(ThePast(), output, hist, base + blockStart, Here());
      WindowByte(strstart);
      TallyExact(output, 0, window[strstart]);
      output := output.Tally(0, window[strstart]);
      full := |output.tokens| == litBufSize - 1;
      lookahead := lookahead - 1;
      strstart := strstart + 1;
    }

    /** What the search at position p found is used, with its length and distance; if it found nothing,
        the byte there becomes a literal. */
    ghost predicate Greedy(t: Token, p: nat)
      reads this`hits, this`hist
    {
      && p in hits && p < |hist|
      && if hits[p].len >= MIN_MATCH then t.dist > 0 && hits[p] == Hit(t.lc + MIN_MATCH, t.dist)
         else t == Token(0, hist[p])
    }

    /** deflate_fast: the match found, or a literal. */
    method EmitFast(oldHead: nat) returns (full: bool, hashHead: nat, ghost t: Token)
      requires FastOk() && lookahead >= 1 && strstart + MIN_LOOKAHEAD <= 2 * wSize
      modifies this`insH, this`dict, this`matchLength, this`matchStart, this`output, this`strstart, this`lookahead,
               this`hits, head, prev
      ensures FastOk() && Here() > old(Here()) && output.blocks == old(output.blocks) && strstart < 2 * wSize
      ensures Extends(old(hits), hits) && Greedy(t, old(Here())) && Here() == old(Here()) + Width(t)
      ensures output.tokens == old(output.tokens) + [t]
      ensures full == (|output.tokens| == litBufSize - 1)
      ensures old(Here()) + MIN_MATCH <= |hist| ==> old(Here()) in dict.chained
    {
      hide KeysOf, ReadyAt, SameRun, Tells, Compressor.TextOk, Compressor.TablesOk, Compressor.Searched,
           Compressor.MatchAt, Extends, Compressor.Worthy;
      ghost var v, best;
      hashHead, v, best := SearchFast(oldHead);
      TextFits();
      if matchLength >= MIN_MATCH {
        MatchSizes(matchStart, Here(), matchLength);
        t := Token(strstart - matchStart, matchLength - MIN_MATCH);
        full := TallyMatch(strstart - matchStart, matchLength, Here(), matchStart);
        hashHead := SkipMatch(hashHead);
      } else {
        full := FastLiteral();
        t := Token(0, hist[Here() - 1]);
      }
      TextFits();
    }

    /** deflate_fast: a full block goes out. */
    method FlushFast()
      requires FastOk() && strstart < 2 * wSize && Writing() && out.w.Valid() && NoLast()
      modifies this`output, this`blockStart, out`lastEobLen, out`ps, out`pad, out.w
      ensures output.tokens == [] && |output.blocks| == |old(output.blocks)| + 1
      ensures output.blocks[..|old(output.blocks)|] == old(output.blocks)
      ensures output.blocks[|old(output.blocks)|].tokens == old(output.tokens)
      ensures FastOk() && Writing() && NoLast() && (out.w.availOut > 0 ==> out.w.Valid())
      ensures old(out.w.nextOut) <= out.w.nextOut &&
              |out.w.nextOut| + out.w.availOut == old(|out.w.nextOut| + out.w.availOut)
    {
      hide KeysOf, ReadyAt, SameRun, Tells, Compressor.TextOk, Compressor.TablesOk, Compressor.MatchAt,
           BlockWriter.Wrote, BitWriter.Bytes, BlockWriter.Open;
      FlushBlockOnly(false);
    }

    lemma FastShape()
      requires FastOk()
      ensures Shape()
    {
      hide KeysOf, ReadyAt, SameRun, Tells, Compressor.TextOk, Dict.Ok;
    }

    /** One iteration of deflate_fast: what is found is used at once. */
    method FastStep(oldHead: nat) returns (hashHead: nat, stop: bool, ghost t: Token)
      requires Roomy() && FastOk() && lookahead >= 1 && strstart + MIN_LOOKAHEAD <= 2 * wSize
      requires Writing() && out.w.Valid() && out.w.availOut > 0 && NoLast()
      modifies this`insH, this`dict, this`matchLength, this`matchStart, this`output, this`blockStart, this`strstart,
               this`lookahead, this`hits, head, prev, out`lastEobLen, out`ps, out`pad, out.w
      ensures FastOk() && Roomy() && Here() > old(Here()) && Writing() && NoLast() && Extends(old(hits), hits)
      ensures Greedy(t, old(Here())) && Here() == old(Here()) + Width(t) && Grew(old(output), [t])
      ensures old(Here()) + MIN_MATCH <= |hist| ==> old(Here()) in dict.chained
      ensures old(out.w.nextOut) <= out.w.nextOut &&
              |out.w.nextOut| + out.w.availOut == old(|out.w.nextOut| + out.w.availOut)
      ensures stop <==> out.w.availOut == 0
      ensures !stop ==> out.w.Valid()
    {
      hide KeysOf, ReadyAt, SameRun, Tells, Compressor.TextOk, Compressor.TablesOk, Compressor.MatchAt,
           BlockWriter.Wrote, BitWriter.Bytes, BlockWriter.Open, Compressor.FastOk;
      var full;
      full, hashHead, t := EmitFast(oldHead);
      assert Shape() by { FastShape(); }
      if full { FlushFast(); }
      stop := full && out.w.availOut == 0;
    }

    /** deflate_fast behind its loop. */
    method EndFast(flush: Flush) returns (state: BlockState)
      requires FastOk() && lookahead == 0 && availIn == [] && flush != NoFlush && strstart < 2 * wSize
      requires Writing() && out.w.Valid() && out.w.availOut > 0 && NoLast()
      modifies this`output, this`blockStart, this`matchAvailable, out`lastEobLen, out`ps, out`pad, out.w
      ensures FastOk() && Roomy() && Matched(flush, state)
      ensures old(out.w.nextOut) <= out.w.nextOut &&
              |out.w.nextOut| + out.w.availOut == old(|out.w.nextOut| + out.w.availOut)
    {
      hide KeysOf, ReadyAt, SameRun, Tells, Compressor.TextOk, Compressor.TablesOk, Compressor.MatchAt,
           BlockWriter.Wrote, BitWriter.Bytes, BlockWriter.Open, Compressor.LastOnly;
      ghost var blocks := output.blocks;
      assert Shape() by { FastShape(); }
      FlushBlockOnly(flush == Finish);
      Flags(blocks, flush == Finish);
      if out.w.availOut == 0 { return if flush == Finish then FinishStarted else NeedMore; }
      return if flush == Finish then FinishDone else BlockDone;
    }

    lemma FastFits()
      requires FastOk()
      ensures Here() + lookahead == |hist| && strstart <= 2 * wSize &&
              (lookahead >= MIN_LOOKAHEAD ==> strstart + MIN_LOOKAHEAD <= 2 * wSize)
    {
      hide KeysOf, ReadyAt, SameRun, Tells, Compressor.TablesOk, Compressor.MatchAt;
    }

    /** deflate_fast. */
    method DeflateFast(flush: Flush) returns (state: BlockState)
      requires FastOk() && Roomy() && Summed() && Writing() && out.w.Valid() && out.w.availOut > 0 && NoLast()
      modifies this`insH, this`strstart, this`lookahead, this`blockStart, this`matchLength, this`prevLength,
               this`matchStart, this`prevMatch, this`matchAvailable, this`output, this`availIn, this`adler, this`hist,
               this`base, this`dict, this`hits, window, head, prev, out`lastEobLen, out`ps, out`pad, out.w
      ensures Roomy() && Extends(old(hits), hits)
      ensures FastOk() && Summed() && hist + availIn == old(hist + availIn)
      ensures Matched(flush, state)
      ensures old(out.w.nextOut) <= out.w.nextOut &&
              |out.w.nextOut| + out.w.availOut == old(|out.w.nextOut| + out.w.availOut)
    {
      hide KeysOf, ReadyAt, SameRun, Tells, Compressor.TextOk, Compressor.TablesOk, Compressor.MatchAt,
           BlockWriter.Wrote, BitWriter.Bytes, BlockWriter.Open, Checksum, Compressor.Settled, Compressor.LastOnly,
           Compressor.AllSaid, Compressor.SlowOk, Compressor.FastOk, Compressor.Summed, Compressor.Grew,
           Compressor.Roomy;
      var hashHead: nat := 0;
      while true
        invariant FastOk() && Roomy() && Extends(old(hits), hits) && Summed() && hist + availIn == old(hist + availIn)
        invariant Writing() && out.w.Valid() && out.w.availOut > 0 && NoLast()
        invariant old(out.w.nextOut) <= out.w.nextOut &&
                  |out.w.nextOut| + out.w.availOut == old(|out.w.nextOut| + out.w.availOut)
        decreases |hist + availIn| - Here()
      {
        if lookahead < MIN_LOOKAHEAD {
          FillFast();
          if lookahead < MIN_LOOKAHEAD && flush == NoFlush { return NeedMore; }
          if lookahead == 0 { break; }
        } else {
          FastFits();
        }
        var stop: bool;
        ghost var t;
        hashHead, stop, t := FastStep(hashHead);
        FastFits();
        if stop { return NeedMore; }
      }
      state := EndFast(flush);
    }

    /** The state of a new stream (lm_init on freshly cleared tables). */
    ghost predicate Blank()
      reads this, window, head, prev, out, out.w
    {
      && TextOk() && TablesOk() && Sized()
      && hist == [] && base == 0 && preset == 0 && dict.chained == {} && dict.cursor == 0
      && hits == map[] && flushed == Barrier(0, 0, 0)
      && strstart == lookahead == 0 && blockStart == 0
      && matchLength == prevLength == MIN_MATCH - 1 && !matchAvailable
      && output == Output([], []) && availIn == [] && adler == dictCheck == 1
      && out.Unused()
    }

    /** The same for a stream with a header. */
    ghost predicate Fresh()
      reads this, window, head, prev, out, out.w
    {
      Blank() && noheader == 0 && status == INIT_STATE
    }

    lemma EmptyTables()
      requires Shape() && hist == [] && base == 0 && dict == Dict(wSize, 0, head[..], prev[..], [], {}, 0)
      requires flushed == Barrier(0, 0, 0)
      requires (forall i :: 0 <= i < head.Length ==> head[i] == 0) &&
               (forall i :: 0 <= i < prev.Length ==> prev[i] == 0)
      ensures TextOk() && TablesOk()
    {
      hide KeysOf, Dict.Ok;
      EmptyDict(hash, dict);
    }

    lemma BlankIsOk()
      requires Blank() && if noheader == 0 then status == INIT_STATE else noheader == 1 && status == BUSY_STATE
      ensures Ok()
    {
      hide KeysOf, BlockWriter.Wrote, BitWriter.Bytes, Checksum, Dict.Ok;
      ChecksumNone();
      assert hist[..0] == [];
    }

    ghost predicate Sized() { 9 <= wBits <= 15 && wSize == Pow2(wBits) }

    /** Before the first call of deflate there may be a preset dictionary, but nothing else. */
    ghost predicate Initial()
      reads this`hist, this`base, this`strstart, this`lookahead, this`preset, this`output, this`noheader, this`adler,
            this`dictCheck, this`hits, this`flushed, out`head, out`ps, out`mark, out`offset, out`pad, out`tail,
            out.w`pendingBuf, out.w`pendingOut, out.w`nextOut, out.w`biBuf, out.w`biValid
    {
      && strstart == preset == |hist| && base == lookahead == 0 && output == Output([], []) && out.Unused()
      && hits == map[] && flushed == Barrier(0, 0, preset)
      && noheader == 0 && adler == dictCheck < 0x1_0000_0000
    }

    /** What goes out before the first block. */
    ghost function Heading(): seq<Byte>
      requires Sized()
      reads this`preset, this`dictCheck, this`noheader
    {
      if noheader == 1 then [] else HeaderBytes(wBits, out.level, preset > 0, dictCheck)
    }

    /** All blocks have been written, the last is marked, and the trailer is behind them once it is
        due. */
    ghost predicate Closed()
      reads this`hist, this`preset, this`output, this`lookahead, this`noheader, this`hits, this`flushed, out`head,
            out`ps, out`mark, out`offset, out`pad, out`tail, out.w`pendingBuf, out.w`pendingOut, out.w`nextOut,
            out.w`biBuf, out.w`biValid
    {
      && out.Wrote(output.blocks) && AllSaid() && LastOnly() && lookahead == 0 && out.w.biValid == 0
      && out.tail == if noheader == -1 then WordBytes(Checksum(hist[preset..])) else []
    }

    /** The invariant of the level's matching function. */
    ghost predicate LevelOk()
      reads this`hist, this`base, this`dict, this`insH, this`strstart, this`lookahead, this`blockStart,
            this`matchLength, this`prevLength, this`matchStart, this`matchAvailable, this`output, this`preset,
            this`hits, this`flushed, window, head, prev
    {
      Roomy() && if lazy then SlowOk() else FastOk()
    }

    /** What every call of deflate keeps. */
    ghost predicate Ok()
      reads this`hist, this`base, this`dict, this`insH, this`strstart, this`lookahead, this`blockStart,
            this`matchLength, this`prevLength, this`matchStart, this`matchAvailable, this`output, this`preset,
            this`adler, this`noheader, this`status, this`dictCheck, this`hits, this`flushed, window, head, prev,
            out`head, out`ps, out`mark, out`offset, out`pad, out`tail, out.w`pendingBuf, out.w`pendingOut,
            out.w`nextOut, out.w`biBuf, out.w`biValid
    {
      && LevelOk() && Sized() && preset <= |hist| && out.w.Holding() && out.mark == flushed.mark
      && (flushed.mark > 0 ==> flushed.known == 0)
      && (if status.INIT_STATE? then Initial() else Summed() && out.head == Heading())
      && (if status.FINISH_STATE? then Closed() else Writing() && NoLast())
      && -1 <= noheader <= 1 && (noheader == -1 ==> status.FINISH_STATE?)
    }

    /** deflateInit2: the sizes of the hash table and of the token buffers follow from memLevel. */
    constructor (memLevel: nat, wBits: nat, config: Config, strategy: Strategy, lazy: bool, raw: bool, out: BlockWriter)
      requires 1 <= memLevel <= 9 && 9 <= wBits <= 15 && config.maxChain >= 4
      requires out.Unused()
      ensures Ok() && Blank() && (!raw ==> Fresh()) && this.lazy == lazy && this.out == out && hist == [] &&
              preset == 0 && availIn == []
      ensures status == (if raw then BUSY_STATE else INIT_STATE) && fresh(window) && fresh(head) && fresh(prev)
      ensures this.wBits == wBits && noheader == if raw then 1 else 0
    {
      hide BlockWriter.Unused, Compressor.Ok, Pow2, KeysOf, Dict.Ok, Compressor.TextOk, Compressor.TablesOk,
           Compressor.Summed, BlockWriter.Wrote;
      this.wBits, this.config, this.strategy, this.lazy, this.out := wBits, config, strategy, lazy, out;
      var hash := Params(memLevel + 7, (memLevel + 7 + 2) / 3);
      this.hash, litBufSize := hash, Pow2(memLevel + 6);
      wSize := Pow2(wBits);
      window := new Byte[2 * Pow2(wBits)](i => 0);
      head := new nat[hash.Size()](i => 0);
      prev := new nat[Pow2(wBits)](i => 0);
      insH, strstart, lookahead, blockStart := 0, 0, 0, 0;
      matchLength, prevLength, matchStart, prevMatch := MIN_MATCH - 1, MIN_MATCH - 1, 0, 0;
      matchAvailable, output, availIn := false, Output([], []), [];
      adler, dictCheck, noheader, lastFlush := 1, 1, if raw then 1 else 0, 0;
      status := if raw then BUSY_STATE else INIT_STATE;
      hist, base, preset := [], 0, 0;
      hits, flushed := map[], Barrier(0, 0, 0);
      new;
      Pow2Mono(1, memLevel + 6);
      assert Pow2(1) == 2 by { Pow2None(); Pow2Step(1); }
      WindowSizes(wBits);
      dict := Dict(wSize, 0, head[..], prev[..], [], {}, 0);
      EmptyTables();
      BlankIsOk();
    }

    /** CLEAR_HASH. */
    method ClearHash()
      requires TablesOk() && dict.cursor <= |hist|
      modifies this`dict, head
      ensures TablesOk() && dict.chained == {} && dict.cursor == |hist|
    {
      hide KeysOf, Slot;
      var i := 0;
      while i < head.Length
        modifies head
        invariant 0 <= i <= head.Length
        invariant forall j :: 0 <= j < i ==> head[j] == 0
      {
        head[i] := 0;
        i := i + 1;
      }
      assert head[..] == dict.Clear(|hist|).head;
      ClearOk(dict, |hist|);
      dict := dict.Clear(|hist|);
    }

    /** The part of a preset dictionary that deflateSetDictionary keeps. */
    function Kept(dictionary: seq<Byte>): (kept: seq<Byte>)
      requires MaxDist() >= 0
      ensures |kept| == (if |dictionary| < MIN_MATCH then 0 else Min(MaxDist(), |dictionary|))
      ensures kept == dictionary[|dictionary| - |kept|..]
    {
      if |dictionary| < MIN_MATCH then []
      else if |dictionary| > MaxDist() then dictionary[|dictionary| - MaxDist()..]
      else dictionary
    }

    /** deflateSetDictionary: the loop over all complete strings. */
    method InsertDictionary(length: nat)
      requires TablesOk() && TextOk() && base == 0 && |hist| == length >= MIN_MATCH && dict.cursor == 0
      modifies this`insH, this`dict, head, prev
      ensures TablesOk() && dict.cursor <= length
      ensures forall p :: 0 <= p && p + MIN_MATCH <= length ==> p in dict.chained
    {
      hide KeysOf, ReadyAt, Dict.Ok, Dict.LinkOk, Slot, Dict.NoneBetween;
      insH := FreshHash(hash, window[0], window[1], hist, 0);
      var n := 0;
      while n <= length - MIN_MATCH
        invariant 0 <= n <= length - MIN_MATCH + 1
        invariant TablesOk() && dict.cursor == n && (n <= length - MIN_MATCH ==> ReadyAt(hash, insH, hist, n))
        invariant forall p :: 0 <= p < n ==> p in dict.chained
      {
        var hashHead := InsertString(n);
        n := n + 1;
      }
    }

    /** deflateSetDictionary: the tail of the dictionary precedes the text, and all its
        strings are inserted. */
    method SetDictionary(dictionary: seq<Byte>)
      requires Fresh()
      modifies this, window, head, prev
      ensures Ok() && hist == Kept(dictionary) && preset == |hist| && availIn == [] && status == INIT_STATE
      ensures output == Output([], []) && dictCheck == Checksum(dictionary)
      ensures forall p :: 0 <= p && p + MIN_MATCH <= |hist| ==> p in dict.chained
    {
      hide KeysOf, ReadyAt, Compressor.TextOk, Compressor.TablesOk, BlockWriter.Wrote, BitWriter.Bytes, Checksum, Pack,
           Unpack, Sums.Over, Compressor.Ok, Params.Valid, Tells;
      TextFits();
      ChecksumNone();
      ChecksumFits(dictionary);
      adler := Adler32(adler, dictionary);
      ChecksumMore([], dictionary, adler);
      assert [] + dictionary == dictionary;
      dictCheck := adler;
      if |dictionary| < MIN_MATCH {
        PresetIsOk();
        return;
      }
      LoadDictionary(Kept(dictionary));
      PresetIsOk();
    }

    /** The dictionary enters the window and the tables. */
    method LoadDictionary(kept: seq<Byte>)
      requires TextOk() && TablesOk() && hist == [] && base == 0 && dict.cursor == 0 && MIN_MATCH <= |kept| <= MaxDist()
      requires flushed == Barrier(0, 0, 0)
      modifies this`strstart, this`blockStart, this`preset, this`insH, this`hist, this`dict, this`flushed, window, head,
               prev
      ensures TextOk() && TablesOk() && hist == kept && strstart == blockStart == preset == |hist| &&
              dict.cursor <= |hist|
      ensures flushed == Barrier(0, 0, preset)
      ensures forall p :: 0 <= p && p + MIN_MATCH <= |hist| ==> p in dict.chained
    {
      hide KeysOf, ReadyAt, Compressor.TextOk, Compressor.TablesOk;
      TextFits();
      LoadWindow(0, kept);
      assert hist == kept;
      var length := |kept|;
      strstart, blockStart, preset := length, length, length;
      InsertDictionary(length);
      AllKnown(length);
    }

    /** All text so far is the preset dictionary. */
    method AllKnown(length: nat)
      requires TablesOk() && flushed == Barrier(0, 0, 0)
      modifies this`flushed
      ensures TablesOk() && flushed == Barrier(0, 0, length)
    {
      hide KeysOf, Dict.Ok;
      flushed := Barrier(0, 0, length);
    }

    lemma PresetIsOk()
      requires TextOk() && TablesOk() && Sized() && base == lookahead == 0 &&
               strstart == blockStart == preset == |hist| && dict.cursor <= |hist|
      requires matchLength == prevLength == MIN_MATCH - 1 && !matchAvailable && output == Output([], [])
      requires hits == map[] && flushed == Barrier(0, 0, preset)
      requires status == INIT_STATE && noheader == 0 && adler == dictCheck < 0x1_0000_0000 && out.Unused()
      ensures Ok()
    {
      hide KeysOf, ReadyAt, BlockWriter.Wrote, BitWriter.Bytes, Dict.Ok;
      assert hist[..preset] == hist;
    }

    /** The zlib header, and the checksum of a preset dictionary. */
    method PutHeading()
      requires Sized() && Initial()
      modifies out`head, out.w`pendingBuf
      ensures out.Wrote([]) && out.Open() && out.w.Valid() && out.head == Heading() && out.w.Pending() >= 2
    {
      hide BlockWriter.Wrote, BitWriter.Bytes, BlockWriter.Open, Header, BitWriter.Valid, BitWriter.Holding, WordBytes;
      HeaderIs(wBits, out.level, strstart != 0);
      WordParts(dictCheck);
      out.PutHead(Header(wBits, out.level, strstart != 0));
      if strstart != 0 {
        out.PutHead(adler / 0x10000);
        out.PutHead(adler % 0x10000);
      }
    }

    method WriteHeader()
      requires Ok() && status.INIT_STATE?
      modifies this`adler, this`status, out`head, out.w`pendingBuf
      ensures Ok() && status.BUSY_STATE? && out.w.Valid() && out.w.Pending() >= 2
    {
      hide Compressor.LevelOk, BlockWriter.Wrote, BitWriter.Bytes, Checksum, BlockWriter.Open, Header;
      PutHeading();
      adler := 1;
      status := BUSY_STATE;
      ChecksumNone();
      assert hist[preset..] == [];
    }

    /** The matching function of the level. */
    method RunMatcher(flush: Flush) returns (state: BlockState)
      requires Ok() && !status.INIT_STATE? && !status.FINISH_STATE? && out.w.Valid() && out.w.availOut > 0
      modifies this`insH, this`strstart, this`lookahead, this`blockStart, this`matchLength, this`prevLength,
               this`matchStart, this`prevMatch, this`matchAvailable, this`output, this`availIn, this`adler, this`hist,
               this`base, this`dict, this`hits, window, head, prev, out`lastEobLen, out`ps, out`pad, out.w
      ensures LevelOk() && Sized() && Summed() && out.head == Heading() && 0 <= noheader <= 1 &&
              hist + availIn == old(hist + availIn) && out.mark == flushed.mark &&
              (flushed.mark > 0 ==> flushed.known == 0)
      ensures Matched(flush, state) && Extends(old(hits), hits)
      ensures old(out.w.nextOut) <= out.w.nextOut &&
              |out.w.nextOut| + out.w.availOut == old(|out.w.nextOut| + out.w.availOut)
    {
      hide Compressor.SlowOk, Compressor.FastOk, BlockWriter.Wrote, BitWriter.Bytes, Checksum, BlockWriter.Open,
           Compressor.Matched;
      if lazy {
        state := DeflateSlow(flush);
      } else {
        state := DeflateFast(flush);
      }
    }

    /** The marker of a completed sync or full flush. */
    ghost predicate Marked()
      reads out`ps
    {
      out.ps != [] && out.ps[|out.ps| - 1] == Piece(Stored([]), [], false)
    }

    lemma SettledIs()
      requires Settled()
      ensures AllSaid() && lookahead == 0
    {
      hide Tells;
      SaidToTheEnd(Here());
    }

    /** Empty blocks that have been written join the others. */
    method AddBlocks(more: seq<Block>)
      requires LevelOk() && Settled() && NoLast()
      requires forall i :: 0 <= i < |more| ==> more[i] == NoTokens() || more[i] == NoTokens().(buf := Some([]))
      modifies this`output
      ensures LevelOk() && Settled() && NoLast() && output.blocks == old(output.blocks) + more
    {
      hide KeysOf, ReadyAt, Tells, Compressor.TextOk, Compressor.TablesOk;
      TellsNothing(ThePast(), output, hist, Here(), more);
      output := output.(blocks := output.blocks + more);
    }

    /** Empty blocks behind a completed flush. A full flush is a barrier: no string before it can be
        found any more, and what comes behind it starts afresh. */
    method EndFlush(flush: Flush)
      requires LevelOk() && Settled() && Writing() && NoLast() && out.w.Valid()
      modifies this`output, this`dict, this`flushed, head, out`ps, out`lastEobLen, out`mark, out`offset,
               out.w`pendingBuf, out.w`biBuf, out.w`biValid
      ensures LevelOk() && Settled() && Writing() && NoLast() && out.w.Valid()
      ensures flush != PartialFlush ==> Marked() && out.w.biValid == 0
      ensures if flush == PartialFlush
              then (output.blocks == old(output.blocks) + [NoTokens()] ||
                    output.blocks == old(output.blocks) + [NoTokens(), NoTokens()]) &&
                   1 + old(out.lastEobLen) + (|out.w.Sent()| - old(|out.w.Sent()|)) - out.w.biValid >= 9
              else output.blocks == old(output.blocks) + [NoTokens().(buf := Some([]))]
      ensures if flush == FullFlush
              then flushed == Barrier(|output.blocks|, |hist|, 0) && dict.chained == {} &&
                   out.mark == flushed.mark && out.offset == |out.w.Bytes()|
              else flushed == old(flushed) && dict == old(dict) && out.mark == old(out.mark) &&
                   out.offset == old(out.offset)
    {
      hide Compressor.LevelOk, Compressor.Settled, Compressor.NoLast, Tells, BlockWriter.Wrote, BitWriter.Bytes,
           BitWriter.Sent;
      if flush == PartialFlush {
        var more := out.TrAlign(output.blocks);
        AddBlocks(more);
      } else {
        out.StoreNothing(output.blocks);
        AddBlocks([NoTokens().(buf := Some([]))]);
        if flush == FullFlush { ForgetHistory(); }
      }
    }

    /** CLEAR_HASH between two blocks. */
    method ForgetHistory()
      requires LevelOk() && Settled()
      requires out.Wrote(output.blocks) && out.Open() && out.w.Valid() && out.w.biValid == 0 && NoLast()
      modifies this`dict, this`flushed, out`mark, out`offset, head
      ensures out.Wrote(output.blocks) && out.mark == |output.blocks| && out.offset == |out.w.Bytes()|
      ensures LevelOk() && Settled() && flushed == Barrier(|output.blocks|, |hist|, 0) && dict.chained == {}
    {
      hide KeysOf, ReadyAt, Tells, Compressor.TextOk, Dict.Ok, BlockWriter.Wrote, BitWriter.Bytes;
      TellsBarrier(ThePast(), output, hist, Here());
      ClearHash();
      flushed := Barrier(|output.blocks|, |hist|, 0);
      out.Anchor(output.blocks);
      AsManyPieces(output.blocks);
    }

    lemma AsManyPieces(blocks: seq<Block>)
      requires out.Wrote(blocks)
      ensures |out.ps| == |blocks|
    {
      hide BitWriter.Sent;
    }

    /** The checksum of all input, once. */
    method WriteTrailer()
      requires Ok() && status.FINISH_STATE? && noheader == 0 && out.w.Valid()
      modifies this`noheader, out`tail, out.w
      ensures Ok() && noheader == -1
      ensures old(out.w.nextOut) <= out.w.nextOut &&
              |out.w.nextOut| + out.w.availOut == old(|out.w.nextOut| + out.w.availOut)
      ensures out.w.availOut > 0 || out.w.Pending() == 0 ==> out.w.nextOut == out.w.Bytes()
      ensures out.w.availOut > 0 ==> out.w.Pending() == 0
    {
      hide Compressor.LevelOk, BlockWriter.Wrote, BitWriter.Bytes, Checksum, BlockWriter.Open, Compressor.AllSaid,
           Compressor.LastOnly, HeaderBytes, WordBytes, BitWriter.Valid, BitWriter.Holding;
      ChecksumFits(hist[preset..]);
      WordParts(adler);
      out.PutTail(adler / 0x10000, output.blocks);
      out.PutTail(adler % 0x10000, output.blocks);
      out.FlushOut(output.blocks);
      noheader := -1;
    }

    /** The stream is complete, and the application has all of it. */
    ghost predicate Ended()
      reads this, out`head, out`ps, out`mark, out`offset, out`pad, out`tail,
            out.w`pendingBuf, out.w`pendingOut, out.w`nextOut, out.w`biBuf, out.w`biValid
    {
      status == FINISH_STATE && Closed() && availIn == [] && noheader != 0 && out.w.nextOut == out.w.Bytes()
    }

    /** A flush is complete: all input is in the blocks that the application has. */
    ghost predicate Flushed(flush: Flush)
      reads this, out`head, out`ps, out`mark, out`offset, out`pad, out`tail,
            out.w`pendingBuf, out.w`pendingOut, out.w`nextOut, out.w`biBuf, out.w`biValid
    {
      && availIn == [] && AllSaid() && out.w.nextOut == out.w.Bytes()
      && (flush != PartialFlush ==> Marked() && out.w.biValid == 0)
      && (flush == FullFlush ==> flushed == Barrier(|output.blocks|, |hist|, 0) && out.offset == |out.w.nextOut|)
    }

    /** deflate, from where there is something to do: the matching function and what follows. */
    method Work(flush: Flush) returns (done: bool)
      requires Ok() && !status.INIT_STATE? && !status.FINISH_STATE? && out.w.Valid() && out.w.availOut > 0
      modifies this`status, this`lastFlush, this`insH, this`strstart, this`lookahead, this`blockStart, this`matchLength,
               this`prevLength, this`matchStart, this`prevMatch, this`matchAvailable, this`output, this`availIn,
               this`adler, this`hist, this`base, this`dict, this`hits, this`flushed, window, head, prev,
               out`lastEobLen, out`ps, out`pad, out`mark, out`offset, out.w
      ensures Ok() && !status.INIT_STATE? && hist + availIn == old(hist + availIn)
      ensures old(out.w.nextOut) <= out.w.nextOut &&
              |out.w.nextOut| + out.w.availOut == old(|out.w.nextOut| + out.w.availOut)
      ensures !done && flush != NoFlush ==> out.w.availOut == 0
      ensures !done && out.w.availOut > 0 ==> availIn == [] && lookahead < MIN_LOOKAHEAD && status != FINISH_STATE
      ensures lastFlush == if out.w.availOut == 0 then -1 else old(lastFlush)
      ensures done ==> out.w.availOut > 0 && out.w.Valid() && (status == FINISH_STATE <==> flush == Finish)
      ensures done ==> flush != NoFlush && availIn == [] && out.w.nextOut == out.w.Bytes()
      ensures done && flush != Finish ==> Flushed(flush)
      ensures Extends(old(hits), hits) &&
              (flush != FullFlush ==> flushed == old(flushed) && out.offset == old(out.offset))
    {
      hide Compressor.LevelOk, BlockWriter.Wrote, BitWriter.Bytes, Checksum, BlockWriter.Open, Compressor.AllSaid,
           Tells, Compressor.Settled, Compressor.LastOnly, Compressor.NoLast, Compressor.Marked, Compressor.Ok;
      var state := RunMatcher(flush);
      NoteState(flush, state);
      if state.NeedMore? || state.FinishStarted? {
        if out.w.availOut == 0 { lastFlush := -1; }
        return false;
      }
      done := true;
      if state.BlockDone? { done := CompleteFlush(flush); }
    }

    /** finish_started or finish_done: FINISH_STATE. */
    method NoteState(flush: Flush, state: BlockState)
      requires status == BUSY_STATE && 0 <= noheader <= 1 && LevelOk() && Sized() && Summed() &&
               out.head == Heading() && Matched(flush, state) && out.mark == flushed.mark &&
               (flushed.mark > 0 ==> flushed.known == 0)
      modifies this`status
      ensures Ok() && status == if state.FinishStarted? || state.FinishDone? then FINISH_STATE else BUSY_STATE
    {
      hide Compressor.LevelOk, BlockWriter.Wrote, BitWriter.Bytes, Checksum, Compressor.AllSaid, Tells,
           Compressor.Settled, Compressor.LastOnly, Compressor.NoLast;
      if !state.NeedMore? { SettledIs(); }
      out.WroteHolds(output.blocks);
      if state.FinishStarted? || state.FinishDone? { status := FINISH_STATE; }
    }

    /** The end of a flush, with all output that there is room for. */
    method CompleteFlush(flush: Flush) returns (done: bool)
      requires Ok() && status == BUSY_STATE && Settled() && out.w.Valid()
      modifies this`lastFlush, this`output, this`dict, this`flushed, head, out`ps, out`lastEobLen, out`mark, out`offset,
               out.w
      ensures Ok() && AllSaid()
      ensures if flush == FullFlush
              then flushed == Barrier(|output.blocks|, |hist|, 0) && out.offset == |out.w.Bytes()|
              else flushed == old(flushed) && out.offset == old(out.offset)
      ensures old(out.w.nextOut) <= out.w.nextOut &&
              |out.w.nextOut| + out.w.availOut == old(|out.w.nextOut| + out.w.availOut)
      ensures done <==> out.w.availOut > 0
      ensures lastFlush == if done then old(lastFlush) else -1
      ensures done ==> out.w.Valid() && out.w.nextOut == out.w.Bytes()
      ensures done && flush != PartialFlush ==> Marked() && out.w.biValid == 0
    {
      hide Compressor.LevelOk, BlockWriter.Wrote, BitWriter.Bytes, BlockWriter.Open, Compressor.AllSaid, Tells,
           Compressor.Settled, Compressor.NoLast, Compressor.Marked, BitWriter.Valid, BitWriter.Holding,
           Compressor.Closed, Compressor.Initial;
      EndFlush(flush);
      SettledIs();
      out.FlushOut(output.blocks);
      if out.w.availOut == 0 { lastFlush := -1; return false; }
      done := true;
    }

    /** The call makes no progress: there is no room; or nothing to do, on a flush that is not stronger
        than the one before; or input behind the end. */
    ghost predicate Useless(input: seq<Byte>, flush: Flush, room: nat)
      reads this`availIn, this`status, this`lastFlush, out.w`pendingBuf, out.w`pendingOut
      requires out.w.pendingOut <= |out.w.pendingBuf|
    {
      || room == 0
      || (availIn + input == [] && out.w.Pending() == 0 && status != INIT_STATE && flush != Finish &&
          FlushCode(flush) <= lastFlush)
      || (status == FINISH_STATE && availIn + input != [] && out.w.Pending() < room)
    }

    lemma HoldingSizes()
      requires Ok()
      ensures out.w.pendingOut <= |out.w.pendingBuf|
    {
      hide Compressor.LevelOk, Compressor.Closed, Compressor.Initial, Compressor.Summed, Compressor.Writing;
    }

    /** deflate: one call with more input and room for output. Whatever the calls before, all input
        is either still waiting, in the window, or said; the application has got a beginning of
        header, blocks and trailer; and once the stream has ended, all of it. With room left, no
        input is left waiting before the end. lastFlush forgets a flush that ran out of room. */
    method Call(input: seq<Byte>, flush: Flush, room: nat) returns (r: Ret)
      requires Ok()
      modifies this, window, head, prev, out, out.w
      ensures Ok() && preset == old(preset) && hist + availIn == old(hist + availIn) + input
      ensures dictCheck == old(dictCheck) && (noheader == 1 <==> old(noheader) == 1)
      ensures old(out.w.nextOut) <= out.w.nextOut && |out.w.nextOut| + out.w.availOut == |old(out.w.nextOut)| + room
      ensures r == Z_STREAM_END ==> Ended()
      ensures flush == Finish && out.w.availOut > 0 && (old(status) == FINISH_STATE ==> old(availIn) + input == []) ==>
                r == Z_STREAM_END
      ensures r == Z_OK && flush != NoFlush && out.w.availOut > 0 ==> Flushed(flush)
      ensures r == Z_STREAM_ERROR <==> old(status) == FINISH_STATE && flush != Finish
      ensures old(out.w.pendingOut <= |out.w.pendingBuf|)
      ensures r == Z_BUF_ERROR <==> r != Z_STREAM_ERROR && old(Useless(input, flush, room))
      ensures out.w.availOut > 0 && old(status) != FINISH_STATE ==> availIn == []
      ensures out.w.availOut > 0 && r == Z_OK && flush == NoFlush ==> lookahead < MIN_LOOKAHEAD
      ensures r == Z_STREAM_ERROR || room == 0 ==> lastFlush == old(lastFlush)
      ensures r == Z_BUF_ERROR && room > 0 ==> lastFlush == FlushCode(flush)
      ensures r == Z_OK && status != FINISH_STATE ==> lastFlush == if out.w.availOut == 0 then -1 else FlushCode(flush)
      ensures Extends(old(hits), hits) &&
              (flush != FullFlush ==> flushed == old(flushed) && out.offset == old(out.offset))
    {
      hide Compressor.Ok, BitWriter.Bytes, BitWriter.Holding, BitWriter.Valid, Compressor.Closed, Compressor.Flushed,
           Compressor.Ended;
      HoldingSizes();
      availIn := availIn + input;
      assert hist + availIn == old(hist + availIn) + input;
      out.w.availOut := room;
      if status == FINISH_STATE && flush != Finish { return Z_STREAM_ERROR; }
      if room == 0 { return Z_BUF_ERROR; }
      var oldFlush := lastFlush;
      lastFlush := FlushCode(flush);
      if status == INIT_STATE { WriteHeader(); }
      r := Proceed(flush, oldFlush);
    }

    /** deflate, once the header is written. */
    method Proceed(flush: Flush, oldFlush: int) returns (r: Ret)
      requires Ok() && status != INIT_STATE && out.w.availOut > 0 && (status == FINISH_STATE ==> flush == Finish)
      modifies this, window, head, prev, out, out.w
      ensures Ok() && preset == old(preset) && hist + availIn == old(hist + availIn)
      ensures dictCheck == old(dictCheck) && (noheader == 1 <==> old(noheader) == 1)
      ensures old(out.w.nextOut) <= out.w.nextOut &&
              |out.w.nextOut| + out.w.availOut == old(|out.w.nextOut| + out.w.availOut)
      ensures r == Z_STREAM_END ==> Ended()
      ensures flush == Finish && out.w.availOut > 0 && (old(status) == FINISH_STATE ==> old(availIn) == []) ==>
                r == Z_STREAM_END
      ensures r == Z_OK && flush != NoFlush && out.w.availOut > 0 ==> Flushed(flush)
      ensures r != Z_STREAM_ERROR && old(out.w.pendingOut <= |out.w.pendingBuf|)
      ensures r == Z_BUF_ERROR <==>
                (old(availIn == [] && out.w.Pending() == 0) && flush != Finish && FlushCode(flush) <= oldFlush) ||
                old(status == FINISH_STATE && availIn != [] && out.w.Pending() < out.w.availOut)
      ensures out.w.availOut > 0 && old(status) != FINISH_STATE ==> availIn == []
      ensures out.w.availOut > 0 && r == Z_OK && flush == NoFlush ==> lookahead < MIN_LOOKAHEAD
      ensures r == Z_BUF_ERROR ==> lastFlush == old(lastFlush)
      ensures r == Z_OK && status != FINISH_STATE ==> lastFlush == if out.w.availOut == 0 then -1 else old(lastFlush)
      ensures Extends(old(hits), hits) &&
              (flush != FullFlush ==> flushed == old(flushed) && out.offset == old(out.offset))
    {
      hide Compressor.Ok, BitWriter.Bytes, BitWriter.Holding, BitWriter.Valid, Compressor.Closed, Compressor.Flushed,
           Compressor.Ended;
      HoldingSizes();
      InState();
      if out.w.Pending() != 0 {
        FlushSome();
        if out.w.availOut == 0 { lastFlush := -1; return Z_OK; }
      } else if availIn == [] && FlushCode(flush) <= oldFlush && flush != Finish {
        return Z_BUF_ERROR;
      }
      InState();
      if status == FINISH_STATE && availIn != [] { return Z_BUF_ERROR; }
      if availIn != [] || lookahead != 0 || (flush != NoFlush && status != FINISH_STATE) {
        var done := Work(flush);
        if !done { return Z_OK; }
        InState();
      }
      if flush != Finish { return Z_OK; }
      r := Conclude();
    }

    /** The end of the stream: the trailer, unless there is none or it is written. */
    method Conclude() returns (r: Ret)
      requires Ok() && status == FINISH_STATE && availIn == [] && out.w.Valid() && out.w.nextOut == out.w.Bytes()
      modifies this`noheader, out`tail, out.w
      ensures Ok() && (noheader == 1 <==> old(noheader) == 1)
      ensures old(out.w.nextOut) <= out.w.nextOut &&
              |out.w.nextOut| + out.w.availOut == old(|out.w.nextOut| + out.w.availOut)
      ensures r == Z_OK || (r == Z_STREAM_END && Ended())
      ensures out.w.availOut > 0 ==> r == Z_STREAM_END
    {
      hide Compressor.Ok, BitWriter.Bytes, Compressor.Closed, Compressor.Flushed;
      InState();
      if noheader != 0 { return Z_STREAM_END; }
      WriteTrailer();
      InState();
      return if out.w.Pending() != 0 then Z_OK else Z_STREAM_END;
    }

    lemma InState()
      requires Ok()
      ensures out.w.Holding() && (status == FINISH_STATE ==> Closed() && lookahead == 0)
      ensures out.w.Pending() == 0 ==> out.w.Valid() && out.w.nextOut == out.w.Bytes()
    {
      hide Compressor.LevelOk, BlockWriter.Wrote, Checksum, BlockWriter.Open, Compressor.AllSaid;
    }

    /** flush_pending at the start of a call. */
    method FlushSome()
      requires Ok() && status != INIT_STATE
      modifies out.w`pendingBuf, out.w`pendingOut, out.w`nextOut, out.w`availOut
      ensures Ok() && old(out.w.nextOut) <= out.w.nextOut &&
              |out.w.nextOut| + out.w.availOut == old(|out.w.nextOut| + out.w.availOut)
      ensures old(out.w.pendingOut <= |out.w.pendingBuf|) &&
              (out.w.availOut > 0 <==> old(out.w.availOut) > old(out.w.Pending()))
      ensures out.w.availOut > 0 ==> out.w.Valid() && out.w.Pending() == 0 && out.w.nextOut == out.w.Bytes()
    {
      hide Compressor.LevelOk, BlockWriter.Wrote, BitWriter.Bytes, Checksum, BlockWriter.Open, Compressor.AllSaid;
      out.FlushOut(output.blocks);
    }
  }

  /** The header: method 8 with the window size, the level, and whether there is a preset
      dictionary (section 2.2 of RFC 1950). */
  function Header(wBits: nat, level: nat, preset: bool): nat
    requires 8 <= wBits
  {
    var header := (8 + (wBits - 8) * 16) * 0x100 + (if level == 0 then 3 else Min((level - 1) / 2, 3)) * 64 +
        (if preset then 0x20 else 0);
    header + (31 - header % 31)
  }

  /** What inflate checks of the header. */
  lemma HeaderIs(wBits: nat, level: nat, preset: bool)
    requires 9 <= wBits <= 15
    ensures var h := Header(wBits, level, preset);
            && h < 0x10000 && h % 31 == 0 && h / 0x100 % 16 == 8 && h / 0x1000 + 8 == wBits
            && (h / 0x20 % 2 == 1 <==> preset)
            && h / 0x40 % 4 == if level == 0 || level >= 7 then 3 else if level <= 2 then 0 else if level <= 4 then 1
               else 2
  {
    var flags := (if level == 0 then 3 else Min((level - 1) / 2, 3)) * 2 + (if preset then 1 else 0);
    var high := 8 + (wBits - 8) * 16;
    var check := 31 - (high * 0x100 + flags * 0x20) % 31;
    assert Header(wBits, level, preset) == high * 0x100 + flags * 0x20 + check;
    HeaderParts(high, flags, check);
    NextMultiple(high * 0x100 + flags * 0x20);
  }

  lemma NextMultiple(x: nat)
    ensures (x + (31 - x % 31)) % 31 == 0
  {
  }

  lemma HeaderParts(high: nat, flags: nat, check: nat)
    requires high < 0x100 && flags < 8 && check < 0x20
    ensures var h := high * 0x100 + flags * 0x20 + check;
            h < 0x10000 && h / 0x100 == high && h / 0x1000 == high / 16 && h / 0x20 % 2 == flags % 2 &&
            h / 0x40 % 4 == flags / 2
  {
    var h := high * 0x100 + flags * 0x20 + check;
    assert h / 0x20 == high * 8 + flags;
    assert h / 0x40 == high * 4 + flags / 2;
    assert h / 0x1000 == h / 0x100 / 16;
  }

  /** A word of 32 bits, most significant byte first. */
  function WordBytes(x: nat): (r: seq<Byte>)
    ensures |r| == 4
  {
    [x / 0x1000000 % 0x100, x / 0x10000 % 0x100, x / 0x100 % 0x100, x % 0x100]
  }

  function HeaderBytes(wBits: nat, level: nat, preset: bool, check: nat): seq<Byte>
    requires 8 <= wBits
  {
    var h := Header(wBits, level, preset);
    [h / 0x100 % 0x100, h % 0x100] + if preset then WordBytes(check) else []
  }

  lemma WordParts(x: nat)
    requires x < 0x1_0000_0000
    ensures x / 0x10000 < 0x10000 && x % 0x10000 < 0x10000
    ensures WordBytes(x) == [x / 0x10000 / 0x100, x / 0x10000 % 0x100] + [x % 0x10000 / 0x100, x % 0x10000 % 0x100]
  {
    var high, low := x / 0x10000, x % 0x10000;
    assert x == 0x10000 * high + low;
    FourBytes(high / 0x100, high % 0x100, low / 0x100, low % 0x100);
    assert x == 0x1000000 * (high / 0x100) + 0x10000 * (high % 0x100) + 0x100 * (low / 0x100) + low % 0x100;
  }

  lemma FourBytes(a: nat, b: nat, c: nat, d: nat)
    requires a < 0x100 && b < 0x100 && c < 0x100 && d < 0x100
    ensures WordBytes(0x1000000 * a + 0x10000 * b + 0x100 * c + d) == [a, b, c, d]
  {
    var x := 0x1000000 * a + 0x10000 * b + 0x100 * c + d;
    assert x / 0x1000000 == a;
    assert x / 0x10000 == 0x100 * a + b;
    assert x / 0x100 == 0x10000 * a + 0x100 * b + c;
  }

  lemma EmptyDict(hash: Params, d: Dict)
    requires d == Dict(d.w, 0, d.head, d.prev, [], {}, 0) && d.w > 0 && |d.prev| == d.w && hash.Valid() &&
             |d.head| == hash.Size()
    requires (forall i :: 0 <= i < |d.head| ==> d.head[i] == 0) && (forall i :: 0 <= i < |d.prev| ==> d.prev[i] == 0)
    ensures d.Ok() && KeysOf(hash, []) == []
  {
  }

  lemma WindowSizes(wBits: nat)
    requires 9 <= wBits <= 15
    ensures 512 <= Pow2(wBits) <= 32768
  {
    Pow2Mono(9, wBits);
    Pow2Mono(wBits, 15);
    assert Pow2(9) == 512;
    Pow2Add(9, 6);
    assert Pow2(6) == 64;
  }

  /** Empty blocks tell nothing. */
  lemma {:induction false} TellsNothing(past: Past, o: Output, text: seq<Byte>, n: nat, more: seq<Block>)
    requires Tells(past, o, text, n, n) && o.tokens == []
    requires forall i :: 0 <= i < |more| ==> more[i] == NoTokens() || more[i] == NoTokens().(buf := Some([]))
    ensures Tells(past, Output(o.blocks + more, []), text, n, n)
    decreases |more|
  {
    hide Tells;
    if more == [] {
      assert o.blocks + more == o.blocks;
    } else {
      var k := |more| - 1;
      TellsNothing(past, o, text, n, more[..k]);
      var o' := Output(o.blocks + more[..k], []);
      assert text[n..n] == [] by { TellsSize(past, o, text, n, n); }
      TellsFlush(past, o', text, n, n, more[k].buf, false);
      assert o'.blocks + [more[k]] == o.blocks + more;
    }
  }
}
