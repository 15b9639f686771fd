/** What a token stream means (section 3.2.3 of RFC 1951): literals and copies from
    the output produced so far. */
module Tokens {
  import opened StringHash

  const MIN_MATCH := 3
  const MAX_MATCH := 258

  /** One entry of d_buf and l_buf: distance 0 marks a literal, otherwise lc is the
      match length minus MIN_MATCH. */
  datatype Token = Token(dist: nat, lc: Byte)

  /** Copies n bytes from dist back, one at a time, so that a copy may read what it
      has just written. */
  function Copy(out: seq<Byte>, dist: nat, n: nat): (r: seq<Byte>)
    decreases n
  {
    if n == 0 || dist == 0 || dist > |out| then out
    else Copy(out + [out[|out| - dist]], dist, n - 1)
  }

  function Apply(out: seq<Byte>, t: Token): (r: seq<Byte>) {
    if t.dist == 0 then out + [t.lc] else Copy(out, t.dist, t.lc + MIN_MATCH)
  }

  function Expand(out: seq<Byte>, ts: seq<Token>): (r: seq<Byte>) {
    if ts == [] then out else Apply(Expand(out, ts[..|ts| - 1]), ts[|ts| - 1])
  }

  /** No copy reaches back further than `far`, or to before the text. */
  ghost predicate Reaching(far: int, out: seq<Byte>, ts: seq<Token>) {
    ts == [] ||
    (var n := |ts| - 1; Reaching(far, out, ts[..n]) && ts[n].dist <= far && ts[n].dist <= |Expand(out, ts[..n])|)
  }

  lemma ReachingOne(far: int, out: seq<Byte>, ts: seq<Token>, t: Token)
    requires Reaching(far, out, ts) && t.dist <= far && t.dist <= |Expand(out, ts)|
    ensures Reaching(far, out, ts + [t])
  {
    assert (ts + [t])[..|ts|] == ts;
  }

  lemma {:induction false} ReachingAtMost(far: int, out: seq<Byte>, ts: seq<Token>)
    requires Reaching(far, out, ts)
    ensures forall i :: 0 <= i < |ts| ==> ts[i].dist <= far
    decreases |ts|
  {
    if ts != [] {
      var n := |ts| - 1;
      ReachingAtMost(far, out, ts[..n]);
      forall i | 0 <= i < |ts| ensures ts[i].dist <= far { if i < n { assert ts[..n][i] == ts[i]; } }
    }
  }

  lemma ExpandOne(out: seq<Byte>, ts: seq<Token>, t: Token)
    ensures Expand(out, ts + [t]) == Apply(Expand(out, ts), t)
  {
    assert (ts + [t])[..|ts|] == ts;
  }
}

/** The hash chains of zlib/deflate.c as tables over absolute positions: position
    base + v stands behind a table value v, and value 0 (NIL) behind no position. */
module Chains {
  import opened Arith

  /** `q & w_mask`: the index of position q in a table of w entries. */
  function Slot(q: nat, w: nat): (s: nat)
    requires w > 0
    ensures s < w
  {
    if q < w then q else Slot(q - w, w)
  }

  lemma {:induction false} SlotIsRemainder(q: nat, w: nat)
    requires w > 0
    ensures Slot(q, w) == q % w
  {
    if q >= w {
      SlotIsRemainder(q - w, w);
      ModPlusMultiple(q - w, w, 1);
    } else {
      DivModUnique(q, w, 0, q);
    }
  }

  lemma {:induction false} SlotShifted(base: nat, i: nat, w: nat)
    requires w > 0 && Slot(base, w) == 0
    ensures Slot(base + i, w) == Slot(i, w)
    decreases base
  {
    if base >= w { SlotShifted(base - w, i, w); }
  }

  lemma {:induction false} SlotsDiffer(a: nat, b: nat, w: nat)
    requires w > 0 && a < b < a + w
    ensures Slot(a, w) != Slot(b, w)
  {
    if a >= w { SlotsDiffer(a - w, b - w, w); }
  }

  /** The tables with their ghost reading: the key of every position, the positions
      inserted so far, and one past the last of them. */
  datatype Dict = Dict(w: nat, base: nat, head: seq<nat>, prev: seq<nat>,
                       keys: seq<nat>, chained: set<nat>, cursor: nat) {

    /** A table value stands for no position or for an inserted one with key h. */
    ghost predicate LinkOk(v: nat, h: nat) {
      v == 0 || (base + v in chained && base + v < |keys| && keys[base + v] == h)
    }

    /** Heads by key, each the youngest of its key; every stored link is older than the cursor;
        and from each inserted position whose slot has not been reused the link leads to the next
        older position with the same key. */
    ghost predicate Ok() {
      && w > 0 && |prev| == w && Slot(base, w) == 0
      && (forall q :: q in chained ==> q < cursor && q < |keys| && keys[q] < |head|)
      && (forall h {:trigger HeadAt(h)} :: 0 <= h < |head| ==> HeadAt(h))
      && (forall i :: 0 <= i < w ==> prev[i] == 0 || base + prev[i] < cursor)
      && (forall q {:trigger LinkedAt(q)} :: q in chained && q + w >= cursor ==> LinkedAt(q))
    }

    ghost predicate HeadAt(h: nat)
      requires h < |head|
    {
      LinkOk(head[h], h) && NoneBetween(head[h], cursor, h)
    }

    ghost predicate LinkedAt(q: nat)
      requires w > 0 && |prev| == w
    {
      var v := prev[Slot(q, w)];
      q < |keys| && LinkOk(v, keys[q]) && (v != 0 ==> base + v < q) && NoneBetween(v, q, keys[q])
    }

    /** No string with key h in the window is younger than v stands for and older than q. */
    ghost predicate NoneBetween(v: nat, q: nat, h: nat) {
      forall p :: p in chained && base < p < q && p < |keys| && keys[p] == h ==> p <= base + v
    }

    /** CLEAR_HASH: no string before the position `to` can be found any more. */
    ghost function Clear(to: nat): Dict {
      this.(head := seq(|head|, _ => 0), chained := {}, cursor := to)
    }

    /** INSERT_STRING at window index str under key h. */
    ghost function Insert(str: nat, h: nat): Dict
      requires w > 0 && |prev| == w && h < |head|
    {
      this.(head := head[h := str], prev := prev[Slot(str, w) := head[h]],
            chained := chained + {base + str}, cursor := base + str + 1)
    }

    /** fill_window: the upper half of the window moves down by w. */
    ghost function Slide(): Dict
      requires |prev| == w
    {
      this.(base := base + w,
            head := seq(|head|, i requires 0 <= i < |head| => Slid(head[i], w)),
            prev := seq(w, i requires 0 <= i < w => Slid(prev[i], w)))
    }
  }

  /** `m >= wsize ? m - wsize : NIL`. */
  function Slid(m: nat, w: nat): nat { if m >= w then m - w else 0 }

  /** Only the older strings matter to what lies between. */
  lemma SameBetween(d: Dict, e: Dict, v: nat, u: nat, q: nat, r: nat, h: nat)
    requires d.NoneBetween(v, q, h) && d.base <= e.base && d.keys <= e.keys
    requires e.base + u >= d.base + v || d.base + v <= e.base
    requires forall p :: p in e.chained && p < r && p < |e.keys| && e.keys[p] == h && p > e.base + u ==>
               p in d.chained && p < |d.keys| && p < q
    ensures e.NoneBetween(u, r, h)
  {
  }

  lemma LinkIs(d: Dict, q: nat)
    requires d.w > 0 && |d.prev| == d.w && d.LinkedAt(q)
    ensures var v := d.prev[Slot(q, d.w)];
            q < |d.keys| && d.LinkOk(v, d.keys[q]) && (v != 0 ==> d.base + v < q) && d.NoneBetween(v, q, d.keys[q])
  {
  }

  lemma LinkedIs(d: Dict, q: nat)
    requires d.w > 0 && |d.prev| == d.w && q < |d.keys|
    requires var v := d.prev[Slot(q, d.w)];
             d.LinkOk(v, d.keys[q]) && (v != 0 ==> d.base + v < q) && d.NoneBetween(v, q, d.keys[q])
    ensures d.LinkedAt(q)
  {
  }

  lemma HeadIs(d: Dict, h: nat)
    requires d.Ok() && h < |d.head|
    ensures d.LinkOk(d.head[h], h) && d.NoneBetween(d.head[h], d.cursor, h)
  {
    assert d.HeadAt(h);
  }

  lemma DictIs(d: Dict)
    requires d.Ok()
    ensures d.w > 0 && |d.prev| == d.w && Slot(d.base, d.w) == 0
    ensures forall q :: q in d.chained ==> q < d.cursor && q < |d.keys| && d.keys[q] < |d.head|
  {
  }

  /** A link at position q that stays where it is, when strings behind q are inserted. */
  lemma LinkStays(d: Dict, e: Dict, q: nat, v: nat)
    requires d.Ok() && d.LinkedAt(q) && v == d.prev[Slot(q, d.w)] && e.w == d.w && |e.prev| == e.w
    requires e.base == d.base && d.keys <= e.keys && e.prev[Slot(q, d.w)] == v && d.chained <= e.chained
    requires forall p :: p in e.chained && p < q ==> p in d.chained
    ensures e.LinkedAt(q)
  {
    hide Dict.NoneBetween, Dict.LinkedAt, Dict.Ok, Slot;
    DictIs(d);
    LinkIs(d, q);
    SameBetween(d, e, v, v, q, q, d.keys[q]);
    LinkedIs(e, q);
  }

  lemma InsertLinks(d: Dict, str: nat, h: nat, q: nat)
    requires d.Ok() && h < |d.head|
    requires d.cursor <= d.base + str < |d.keys| && d.keys[d.base + str] == h
    requires q in d.chained && q + d.w > d.base + str
    ensures d.Insert(str, h).LinkedAt(q)
  {
    hide Dict.NoneBetween, Dict.HeadAt;
    assert d.LinkedAt(q);
    hide Dict.LinkedAt, Dict.Ok;
    DictIs(d);
    SlotShifted(d.base, str, d.w);
    SlotsDiffer(q, d.base + str, d.w);
    LinkStays(d, d.Insert(str, h), q, d.prev[Slot(q, d.w)]);
  }

  /** The head of a key is the youngest string of the key. */
  lemma HeadIsYoungest(d: Dict, q: nat, h: nat)
    requires d.Ok() && h < |d.head| && d.cursor <= q
    ensures d.LinkOk(d.head[h], h) && d.NoneBetween(d.head[h], q, h) && (d.head[h] != 0 ==> d.base + d.head[h] < q)
  {
    hide Dict.NoneBetween, Dict.Ok;
    HeadIs(d, h);
    DictIs(d);
    SameBetween(d, d, d.head[h], d.head[h], d.cursor, q, h);
  }

  lemma InsertNew(d: Dict, str: nat, h: nat)
    requires d.Ok() && h < |d.head|
    requires d.cursor <= d.base + str < |d.keys| && d.keys[d.base + str] == h
    ensures d.Insert(str, h).LinkedAt(d.base + str)
  {
    hide Dict.NoneBetween, Dict.LinkedAt, Dict.Ok;
    DictIs(d);
    HeadIsYoungest(d, d.base + str, h);
    SlotShifted(d.base, str, d.w);
    SameBetween(d, d.Insert(str, h), d.head[h], d.head[h], d.base + str, d.base + str, h);
    LinkedIs(d.Insert(str, h), d.base + str);
  }

  lemma InsertHeads(d: Dict, str: nat, h: nat, i: nat)
    requires d.Ok() && h < |d.head| && i < |d.head|
    requires d.cursor <= d.base + str < |d.keys| && d.keys[d.base + str] == h
    ensures d.Insert(str, h).HeadAt(i)
  {
    hide Dict.NoneBetween, Dict.Ok;
    DictIs(d);
    HeadIsYoungest(d, d.base + str, i);
    var e := d.Insert(str, h);
    if i == h {
      NothingBehind(e, str, h);
    } else {
      SameBetween(d, e, d.head[i], d.head[i], d.base + str, e.cursor, i);
    }
  }

  lemma NothingBehind(e: Dict, str: nat, h: nat)
    requires e.cursor == e.base + str + 1
    ensures e.NoneBetween(str, e.cursor, h)
  {
  }

  /** INSERT_STRING keeps all chains sound and complete; the head is the youngest older string of
      the key. */
  lemma InsertOk(d: Dict, str: nat, h: nat)
    requires d.Ok() && h < |d.head|
    requires d.cursor <= d.base + str < |d.keys| && d.keys[d.base + str] == h
    ensures d.Insert(str, h).Ok()
    ensures d.Insert(str, h).LinkOk(d.head[h], h) && (d.head[h] != 0 ==> d.head[h] < str)
    ensures d.NoneBetween(d.head[h], d.base + str, h)
  {
    hide Dict.LinkedAt, Dict.NoneBetween, Dict.HeadAt;
    var e, at := d.Insert(str, h), d.base + str;
    InsertNew(d, str, h);
    HeadIsYoungest(d, at, h);
    forall q {:trigger e.LinkedAt(q)} | q in d.chained && q + d.w > at ensures e.LinkedAt(q) {
      InsertLinks(d, str, h, q);
    }
    forall i {:trigger e.HeadAt(i)} | 0 <= i < |e.head| ensures e.HeadAt(i) {
      InsertHeads(d, str, h, i);
    }
  }

  /** More text after the known positions changes nothing. */
  lemma GrowOk(d: Dict, keys: seq<nat>)
    requires d.Ok() && d.keys <= keys
    ensures d.(keys := keys).Ok()
  {
    hide Dict.LinkedAt, Dict.NoneBetween, Dict.HeadAt;
    var e := d.(keys := keys);
    forall q {:trigger e.LinkedAt(q)} | q in e.chained && q + e.w >= e.cursor ensures e.LinkedAt(q) {
      assert d.LinkedAt(q);
      LinkStays(d, e, q, d.prev[Slot(q, d.w)]);
    }
    forall i {:trigger e.HeadAt(i)} | 0 <= i < |e.head| ensures e.HeadAt(i) {
      GrowHeads(d, e, i);
    }
  }

  lemma GrowHeads(d: Dict, e: Dict, i: nat)
    requires d.Ok() && i < |d.head| && d.keys <= e.keys && e == d.(keys := e.keys)
    ensures e.HeadAt(i)
  {
    hide Dict.NoneBetween, Dict.Ok;
    DictIs(d);
    HeadIs(d, i);
    SameBetween(d, e, d.head[i], d.head[i], d.cursor, e.cursor, i);
  }

  lemma ClearOk(d: Dict, to: nat)
    requires d.Ok() && d.cursor <= to
    ensures d.Clear(to).Ok()
  {
  }

  lemma SlideLinks(d: Dict, q: nat)
    requires d.Ok() && d.LinkedAt(q)
    ensures d.Slide().LinkedAt(q)
  {
    hide Dict.NoneBetween, Dict.Ok, Dict.LinkedAt;
    DictIs(d);
    LinkIs(d, q);
    var e, v := d.Slide(), d.prev[Slot(q, d.w)];
    SameBetween(d, e, v, Slid(v, d.w), q, q, d.keys[q]);
    LinkedIs(e, q);
  }

  lemma SlideHeads(d: Dict, i: nat)
    requires d.Ok() && i < |d.head|
    ensures d.Slide().HeadAt(i)
  {
    hide Dict.NoneBetween, Dict.Ok;
    DictIs(d);
    HeadIs(d, i);
    SameBetween(d, d.Slide(), d.head[i], Slid(d.head[i], d.w), d.cursor, d.cursor, i);
  }

  /** Subtracting the window size from all links keeps the chains sound, and complete for what is
      still in the window. */
  lemma SlideOk(d: Dict)
    requires d.Ok()
    ensures d.Slide().Ok()
  {
    hide Dict.LinkedAt, Dict.HeadAt;
    var e := d.Slide();
    SlotShifted(d.base, d.w, d.w);
    forall q {:trigger e.LinkedAt(q)} | q in e.chained && q + e.w >= e.cursor ensures e.LinkedAt(q) {
      assert d.LinkedAt(q);
      SlideLinks(d, q);
    }
    forall i {:trigger e.HeadAt(i)} | 0 <= i < |e.head| ensures e.HeadAt(i) {
      SlideHeads(d, i);
    }
  }
}

/** Searching a hash chain by brute force: the specification of longest_match. */
module MatchSearch {
  import opened StringHash
  import opened Tokens
  import opened Chains

  /** n bytes of text from a and from b are equal. */
  ghost predicate SameRun(text: seq<Byte>, a: nat, b: nat, n: nat)
    decreases n
  {
    n == 0 ||
    (a + n <= |text| && b + n <= |text| && text[a + n - 1] == text[b + n - 1] && SameRun(text, a, b, n - 1))
  }

  lemma {:induction false} RunAt(text: seq<Byte>, a: nat, b: nat, n: nat, i: nat)
    requires SameRun(text, a, b, n) && i < n
    ensures a + i < |text| && b + i < |text| && text[a + i] == text[b + i]
    decreases n
  {
    if i < n - 1 { RunAt(text, a, b, n - 1, i); }
  }

  lemma {:induction false} RunSlices(text: seq<Byte>, a: nat, b: nat, n: nat)
    requires SameRun(text, a, b, n) && a <= |text| && b <= |text|
    ensures a + n <= |text| && b + n <= |text| && text[a..a + n] == text[b..b + n]
    decreases n
  {
    if n > 0 {
      RunSlices(text, a, b, n - 1);
      assert text[a..a + n] == text[a..a + n - 1] + [text[a + n - 1]];
      assert text[b..b + n] == text[b..b + n - 1] + [text[b + n - 1]];
    }
  }

  lemma {:induction false} ShorterRun(text: seq<Byte>, a: nat, b: nat, n: nat, m: nat)
    requires SameRun(text, a, b, n) && m <= n
    ensures SameRun(text, a, b, m)
    decreases n
  {
    if m < n { ShorterRun(text, a, b, n - 1, m); }
  }

  /** A run within a piece of a text is a run of the text. */
  lemma {:induction false} RunInText(piece: seq<Byte>, text: seq<Byte>, base: nat, a: nat, b: nat, n: nat)
    requires SameRun(piece, a, b, n) && a <= b && base + b + n <= |text|
    requires forall i :: 0 <= i < |text| - base && i < |piece| ==> piece[i] == text[base + i]
    ensures SameRun(text, base + a, base + b, n)
    decreases n
  {
    if n > 0 { RunInText(piece, text, base, a, b, n - 1); }
  }

  lemma {:induction false} RunGrows(text: seq<Byte>, longer: seq<Byte>, a: nat, b: nat, n: nat)
    requires SameRun(text, a, b, n) && text <= longer
    ensures SameRun(longer, a, b, n)
    decreases n
  {
    if n > 0 { RunGrows(text, longer, a, b, n - 1); }
  }

  /** The length, up to max, of the longest common run of text from a and from b. */
  function Common(text: seq<Byte>, a: nat, b: nat, max: nat): (n: nat)
    requires a + max <= |text| && b + max <= |text|
    ensures n <= max
    decreases max
  {
    if max == 0 || text[a] != text[b] then 0 else 1 + Common(text, a + 1, b + 1, max - 1)
  }

  /** Common is a common run, and the text differs right behind it. */
  lemma {:induction false} CommonIsRun(text: seq<Byte>, a: nat, b: nat, max: nat)
    requires a + max <= |text| && b + max <= |text|
    ensures var n := Common(text, a, b, max);
            SameRun(text, a, b, n) && (n < max ==> text[a + n] != text[b + n])
    decreases max
  {
    if max > 0 && text[a] == text[b] {
      CommonIsRun(text, a + 1, b + 1, max - 1);
      PrependRun(text, a, b, Common(text, a + 1, b + 1, max - 1));
    }
  }

  lemma {:induction false} PrependRun(text: seq<Byte>, a: nat, b: nat, n: nat)
    requires a < |text| && b < |text| && text[a] == text[b] && SameRun(text, a + 1, b + 1, n)
    ensures SameRun(text, a, b, n + 1)
    decreases n
  {
    if n > 0 { PrependRun(text, a, b, n - 1); }
  }

  lemma CommonIs(text: seq<Byte>, a: nat, b: nat, max: nat, n: nat)
    requires a + max <= |text| && b + max <= |text|
    requires n <= max && SameRun(text, a, b, n)
    requires n < max ==> text[a + n] != text[b + n]
    ensures Common(text, a, b, max) == n
  {
    var c := Common(text, a, b, max);
    CommonIsRun(text, a, b, max);
    if c < n { RunAt(text, a, b, n, c); }
    if n < c { RunAt(text, a, b, c, n); }
  }

  lemma CommonAtMost(text: seq<Byte>, a: nat, b: nat, max: nat, i: nat)
    requires a + max <= |text| && b + max <= |text|
    requires i < max && text[a + i] != text[b + i]
    ensures Common(text, a, b, max) <= i
  {
    var c := Common(text, a, b, max);
    CommonIsRun(text, a, b, max);
    if i < c { RunAt(text, a, b, c, i); }
  }

  /** The best match so far: its length and its window index. */
  datatype Best = Best(len: nat, start: int)

  /** What a search needs to know: the window, the links, the current string, the oldest
      usable index and the length that ends the search. */
  datatype Query = Query(text: seq<Byte>, prev: seq<nat>, scan: nat, limit: nat, nice: nat) {
    ghost predicate Ok() {
      && |prev| > 0
      && scan + MAX_MATCH <= |text|
      && forall i :: 0 <= i < |prev| ==> prev[i] <= scan
    }

    function Len(cur: nat): nat
      requires Ok() && cur <= scan
    {
      Common(text, cur, scan, MAX_MATCH)
    }

    function Next(cur: nat): nat
      requires Ok()
    {
      prev[Slot(cur, |prev|)]
    }

    function Better(cur: nat, best: Best): Best
      requires Ok() && cur <= scan
    {
      if Len(cur) > best.len then Best(Len(cur), cur) else best
    }

    /** The search stops at a match of nice length, below limit, or after chain steps. */
    predicate Stops(cur: nat, chain: nat, best: Best)
      requires Ok() && cur <= scan
    {
      (Len(cur) > best.len && Len(cur) >= nice) || Next(cur) <= limit || chain <= 1
    }

    function Search(cur: nat, chain: nat, best: Best): Best
      requires Ok() && cur <= scan
      decreases chain
    {
      if Stops(cur, chain, best) then Better(cur, best)
      else Search(Next(cur), chain - 1, Better(cur, best))
    }

    /** The candidates that Search compares, in order. */
    function Visited(cur: nat, chain: nat, best: Best): seq<nat>
      requires Ok() && cur <= scan
      decreases chain
    {
      if Stops(cur, chain, best) then [cur]
      else [cur] + Visited(Next(cur), chain - 1, Better(cur, best))
    }
  }

  /** The search returns the longest of the visited candidates, the first such one, and
      the old match only when no candidate beats it. */
  lemma {:induction false} SearchIsMaximum(q: Query, cur: nat, chain: nat, best: Best)
    requires q.Ok() && cur <= q.scan
    ensures var r := q.Search(cur, chain, best);
            && r.len >= best.len
            && (r.len == best.len ==> r == best)
            && (forall c :: c in q.Visited(cur, chain, best) ==> c <= q.scan && q.Len(c) <= r.len)
            && (r.len > best.len ==> 0 <= r.start && (r.start as nat) in q.Visited(cur, chain, best)
                                     && r.start <= q.scan && q.Len(r.start) == r.len)
    decreases chain
  {
    if !q.Stops(cur, chain, best) {
      SearchIsMaximum(q, q.Next(cur), chain - 1, q.Better(cur, best));
    }
  }

  lemma NextIsOlder(q: Query, d: Dict, cur: nat, h: nat)
    requires q.Ok() && d.Ok() && q.prev == d.prev
    requires 0 < cur && d.LinkOk(cur, h)
    requires d.base + cur + d.w >= d.cursor
    ensures d.LinkOk(q.Next(cur), h) && (q.Next(cur) != 0 ==> q.Next(cur) < cur)
    ensures d.NoneBetween(q.Next(cur), d.base + cur, h)
  {
    assert d.LinkedAt(d.base + cur);
    SlotShifted(d.base, cur, d.w);
  }

  /** v begins with cur and goes on, without a gap, with the next older strings of key h. */
  ghost predicate Youngest(d: Dict, h: nat, cur: nat, v: seq<nat>) {
    && v != [] && v[0] == cur
    && (forall i :: 0 <= i < |v| ==> 0 < v[i] && d.LinkOk(v[i], h))
    && (forall i {:trigger Follows(d, h, v, i)} :: 0 < i < |v| ==> Follows(d, h, v, i))
  }

  ghost predicate Follows(d: Dict, h: nat, v: seq<nat>, i: nat)
    requires 0 < i < |v|
  {
    v[i] < v[i - 1] && d.NoneBetween(v[i], d.base + v[i - 1], h)
  }

  lemma YoungestStart(d: Dict, h: nat, cur: nat, v: seq<nat>)
    requires Youngest(d, h, cur, v)
    ensures v != [] && v[0] == cur
  {
  }

  lemma YoungestIs(d: Dict, h: nat, cur: nat, v: seq<nat>, k: nat)
    requires Youngest(d, h, cur, v) && k < |v|
    ensures 0 < v[k] && d.LinkOk(v[k], h)
  {
  }

  /** On a sound dictionary the visited candidates are the strings of the key of the current one,
      the youngest first, all but the first above limit. */
  lemma {:induction false} VisitedIsChain(q: Query, d: Dict, cur: nat, chain: nat, best: Best, h: nat)
    requires q.Ok() && d.Ok() && q.prev == d.prev
    requires 0 < cur <= q.scan && q.limit <= cur && d.LinkOk(cur, h)
    requires d.base + q.limit + d.w >= d.cursor
    ensures var v := q.Visited(cur, chain, best);
            Youngest(d, h, cur, v) && forall i :: 0 <= i < |v| ==> v[i] <= cur && (i > 0 ==> q.limit < v[i])
    decreases chain
  {
    hide Dict.Ok, Dict.LinkOk, Dict.NoneBetween;
    if !q.Stops(cur, chain, best) {
      NextIsOlder(q, d, cur, h);
      assert d.LinkOk(q.Next(cur), h);
      VisitedIsChain(q, d, q.Next(cur), chain - 1, q.Better(cur, best), h);
      var u, v := q.Visited(q.Next(cur), chain - 1, q.Better(cur, best)), q.Visited(cur, chain, best);
      assert v == [cur] + u;
      forall i {:trigger Follows(d, h, v, i)} | 0 < i < |v| ensures Follows(d, h, v, i) {
        if i > 1 { assert Follows(d, h, u, i - 1); }
      }
    }
  }

  /** How far a search goes: to chain candidates, unless it finds a nice match or the next
      candidate is not above limit. */
  lemma {:induction false} VisitedEnds(q: Query, cur: nat, chain: nat, best: Best)
    requires q.Ok() && cur <= q.scan && chain >= 1
    ensures var v, r := q.Visited(cur, chain, best), q.Search(cur, chain, best);
            && 1 <= |v| <= chain && (forall i :: 0 <= i < |v| ==> v[i] <= q.scan)
            && (|v| == chain || (r.len > best.len && r.len >= q.nice) || q.Next(v[|v| - 1]) <= q.limit)
    decreases chain
  {
    if !q.Stops(cur, chain, best) {
      VisitedEnds(q, q.Next(cur), chain - 1, q.Better(cur, best));
      SearchIsMaximum(q, q.Next(cur), chain - 1, q.Better(cur, best));
    }
  }

  /** The search does not go on behind a nice match. */
  lemma {:induction false} NiceIsLast(q: Query, cur: nat, chain: nat, best: Best, i: nat)
    requires q.Ok() && cur <= q.scan && i + 1 < |q.Visited(cur, chain, best)|
    ensures var c := q.Visited(cur, chain, best)[i]; c <= q.scan && (q.Len(c) <= best.len || q.Len(c) < q.nice)
    decreases chain
  {
    if i > 0 { NiceIsLast(q, q.Next(cur), chain - 1, q.Better(cur, best), i - 1); }
  }

  /** Candidate k is the first of v that matches as long as r, and it is r. */
  ghost predicate FirstLongest(text: seq<Byte>, scan: nat, v: seq<nat>, k: nat, r: Best)
    requires scan + MAX_MATCH <= |text| && k < |v| && forall i :: 0 <= i < |v| ==> v[i] <= scan
  {
    && v[k] == r.start && Common(text, v[k], scan, MAX_MATCH) == r.len
    && forall i :: 0 <= i < k ==> Common(text, v[i], scan, MAX_MATCH) < r.len
  }

  /** Of the candidates v, r is the first of the longest, if one is longer than old_, and otherwise
      old_ itself. */
  ghost predicate LongestOf(text: seq<Byte>, scan: nat, v: seq<nat>, old_: Best, r: Best)
    requires scan + MAX_MATCH <= |text| && forall i :: 0 <= i < |v| ==> v[i] <= scan
  {
    && (forall i :: 0 <= i < |v| ==> Common(text, v[i], scan, MAX_MATCH) <= r.len)
    && (r == old_ || (r.len > old_.len && exists k :: 0 <= k < |v| && FirstLongest(text, scan, v, k, r)))
  }

  lemma LongestStep(text: seq<Byte>, scan: nat, cur: nat, u: seq<nat>, best: Best, r: Best)
    requires scan + MAX_MATCH <= |text| && cur <= scan && forall i :: 0 <= i < |u| ==> u[i] <= scan
    requires var n := Common(text, cur, scan, MAX_MATCH);
             LongestOf(text, scan, u, if n > best.len then Best(n, cur) else best, r)
    ensures LongestOf(text, scan, [cur] + u, best, r)
  {
    hide Common;
    var n := Common(text, cur, scan, MAX_MATCH);
    var v, better := [cur] + u, if n > best.len then Best(n, cur) else best;
    forall i | 0 <= i < |v| ensures Common(text, v[i], scan, MAX_MATCH) <= r.len {
      if i > 0 { assert v[i] == u[i - 1]; }
    }
    if r != better {
      var k :| 0 <= k < |u| && FirstLongest(text, scan, u, k, r);
      forall i | 0 <= i < k + 1 ensures Common(text, v[i], scan, MAX_MATCH) < r.len {
        if i > 0 { assert v[i] == u[i - 1]; }
      }
      assert FirstLongest(text, scan, v, k + 1, r);
    } else if r != best {
      assert FirstLongest(text, scan, v, 0, r);
    }
  }

  /** The search returns the first of the longest candidates. */
  lemma {:induction false} SearchIsLongest(q: Query, cur: nat, chain: nat, best: Best)
    requires q.Ok() && cur <= q.scan && chain >= 1
    ensures forall i :: 0 <= i < |q.Visited(cur, chain, best)| ==> q.Visited(cur, chain, best)[i] <= q.scan
    ensures LongestOf(q.text, q.scan, q.Visited(cur, chain, best), best, q.Search(cur, chain, best))
    decreases chain
  {
    hide LongestOf;
    VisitedEnds(q, cur, chain, best);
    var r := q.Search(cur, chain, best);
    if q.Stops(cur, chain, best) {
      NothingLonger(q.text, q.scan, r);
      LongestStep(q.text, q.scan, cur, [], best, r);
      assert [cur] + [] == [cur];
    } else {
      SearchIsLongest(q, q.Next(cur), chain - 1, q.Better(cur, best));
      LongestStep(q.text, q.scan, cur, q.Visited(q.Next(cur), chain - 1, q.Better(cur, best)), best, r);
    }
  }

  lemma NothingLonger(text: seq<Byte>, scan: nat, r: Best)
    requires scan + MAX_MATCH <= |text|
    ensures LongestOf(text, scan, [], r, r)
  {
  }

  /** Candidate c matches in its third byte whenever it matches in the first two, and the
      candidate after it is again one of good. */
  ghost predicate GoodStep(q: Query, good: set<nat>, c: nat)
    requires q.Ok()
  {
    && c <= q.scan
    && (SameRun(q.text, c, q.scan, 2) ==> SameRun(q.text, c, q.scan, 3))
    && (q.Next(c) > q.limit ==> q.Next(c) in good)
  }

  ghost predicate Good(q: Query, good: set<nat>)
    requires q.Ok()
  {
    forall c {:trigger GoodStep(q, good, c)} :: c in good ==> GoodStep(q, good, c)
  }

  /** Eight comparisons `*++scan == *++match`, from offset n on. */
  method CompareEight(text: array<Byte>, scan: nat, cur: nat, n: nat) returns (m: nat, same: bool)
    requires cur <= scan && scan + MAX_MATCH < text.Length && n + 8 <= MAX_MATCH
    ensures n < m <= n + 8 && (same ==> m == n + 8)
    ensures SameRun(text[..], cur, scan, n + 1) ==> SameRun(text[..], cur, scan, m)
    ensures same == (text[cur + m] == text[scan + m])
  {
    m := n + 1;
    same := text[scan + m] == text[cur + m];
    while same && m < n + 8
      invariant n < m <= n + 8
      invariant SameRun(text[..], cur, scan, n + 1) ==> SameRun(text[..], cur, scan, m)
      invariant same == (text[cur + m] == text[scan + m])
      decreases n + 8 - m, same
    {
      m := m + 1;
      same := text[scan + m] == text[cur + m];
    }
  }

  /** The comparison loop of longest_match: entered with the first three bytes equal, it
      tests the end of the string only after every eighth comparison. */
  method CompareRun(text: array<Byte>, scan: nat, cur: nat) returns (len: nat)
    requires cur <= scan && scan + MAX_MATCH < text.Length
    ensures MIN_MATCH <= len <= MAX_MATCH
    ensures SameRun(text[..], cur, scan, 3) ==> len == Common(text[..], cur, scan, MAX_MATCH)
  {
    ghost var start := SameRun(text[..], cur, scan, 3);
    len := 2;
    var same := true;
    while same && len < MAX_MATCH
      invariant 2 <= len <= MAX_MATCH && (len == 2 ==> same)
      invariant same ==> len % 8 == 2
      invariant start ==> SameRun(text[..], cur, scan, len)
      invariant start && len < MAX_MATCH ==> same == (text[cur + len] == text[scan + len])
      decreases MAX_MATCH - len, same
    {
      len, same := CompareEight(text, scan, cur, len);
    }
    if start { CommonIs(text[..], cur, scan, MAX_MATCH, len); }
  }

  /** One candidate of longest_match: rejected on its end bytes or first two bytes, or
      compared in full; 0 stands for a rejection. */
  method TryMatch(text: array<Byte>, scan: nat, cur: nat, bestLen: nat) returns (len: nat)
    requires cur <= scan && scan + MAX_MATCH < text.Length && 1 <= bestLen <= MAX_MATCH
    ensures len <= MAX_MATCH
    ensures (SameRun(text[..], cur, scan, 2) ==> SameRun(text[..], cur, scan, 3)) ==>
              var n := Common(text[..], cur, scan, MAX_MATCH);
              if len > bestLen then len == n else n <= bestLen
  {
    if text[cur + bestLen] != text[scan + bestLen] {
      len := 0;
      if bestLen < MAX_MATCH { CommonAtMost(text[..], cur, scan, MAX_MATCH, bestLen); }
    } else if text[cur + bestLen - 1] != text[scan + bestLen - 1] {
      len := 0;
      CommonAtMost(text[..], cur, scan, MAX_MATCH, bestLen - 1);
    } else if text[cur] != text[scan] {
      len := 0;
      CommonAtMost(text[..], cur, scan, MAX_MATCH, 0);
    } else if text[cur + 1] != text[scan + 1] {
      len := 0;
      CommonAtMost(text[..], cur, scan, MAX_MATCH, 1);
    } else {
      len := CompareRun(text, scan, cur);
      assert SameRun(text[..], cur, scan, 2);
    }
  }

  /** The loop of longest_match over the chain from hashHead. On a chain of good candidates
      it finds what the brute-force search finds. */
  method SearchChain(text: array<Byte>, prev: array<nat>, ghost q: Query, ghost good: set<nat>,
                     scan: nat, hashHead: nat, chainLength: nat, limit: nat, nice: nat, best: Best)
    returns (r: Best)
    requires q.Ok() && q == Query(text[..], prev[..], scan, limit, nice) && Good(q, good)
    requires hashHead <= scan && scan + MAX_MATCH < text.Length
    requires 1 <= best.len <= MAX_MATCH && chainLength >= 1
    ensures 1 <= r.len <= MAX_MATCH
    ensures hashHead in good ==> r == q.Search(hashHead, chainLength, best)
  {
    var cur: nat, chain: nat := hashHead, chainLength;
    r := best;
    var more := true;
    while more
      invariant cur <= scan && 1 <= r.len <= MAX_MATCH && chain >= 1
      invariant hashHead in good ==> cur in good
      invariant hashHead in good ==>
                  q.Search(hashHead, chainLength, best) == if more then q.Search(cur, chain, r) else r
      decreases more, chain
    {
      assert hashHead in good ==> GoodStep(q, good, cur);
      var n := TryMatch(text, scan, cur, r.len);
      ghost var old_ := r;
      var found, next := n > r.len, prev[Slot(cur, prev.Length)];
      if found { r := Best(n, cur); }
      var stop := (found && n >= nice) || next <= limit || chain == 1;
      assert hashHead in good ==> r == q.Better(cur, old_) && stop == q.Stops(cur, chain, old_);
      if stop {
        more := false;
      } else {
        cur, chain := next, chain - 1;
      }
    }
  }
}

/** The tally of tokens and the blocks handed to _tr_flush_block. */
module BlockOutput {
  import opened Options
  import opened StringHash
  import opened Tokens
  import opened MatchSearch

  /** The arguments of one call of _tr_flush_block; no buf stands for a null pointer. */
  datatype Block = Block(tokens: seq<Token>, buf: Option<seq<Byte>>, storedLen: nat, last: bool)

  /** What a sequence of blocks decodes to behind the text out. */
  function Meaning(out: seq<Byte>, blocks: seq<Block>): (r: seq<Byte>) {
    if blocks == [] then out
    else Expand(Meaning(out, blocks[..|blocks| - 1]), blocks[|blocks| - 1].tokens)
  }

  /** Storing a block means the same as coding its tokens: its length is the length of
      what its tokens add, and its buffer, when it has one, is what they add and fits the
      16-bit length field of a stored block. */
  ghost predicate StoredAgrees(out: seq<Byte>, blocks: seq<Block>) {
    blocks == [] ||
    (var before, b := blocks[..|blocks| - 1], blocks[|blocks| - 1];
     && StoredAgrees(out, before)
     && |Meaning(out, blocks)| == |Meaning(out, before)| + b.storedLen
     && (b.buf.Some? ==> b.storedLen < 0x10000 && Meaning(out, blocks) == Meaning(out, before) + b.buf.value))
  }

  /** No copy in any block reaches back too far. */
  ghost predicate AllReaching(far: int, out: seq<Byte>, blocks: seq<Block>) {
    blocks == [] ||
    (var before, b := blocks[..|blocks| - 1], blocks[|blocks| - 1];
     AllReaching(far, out, before) && Reaching(far, Meaning(out, before), b.tokens))
  }

  /** The finished blocks and the tokens tallied since. */
  datatype Output = Output(blocks: seq<Block>, tokens: seq<Token>) {

    /** _tr_tally_lit and _tr_tally_dist store 16 bits of distance and 8 of length. */
    function Tally(dist: nat, lc: nat): Output {
      this.(tokens := tokens + [Token(dist % 0x10000, lc % 0x100)])
    }

    function Flush(buf: Option<seq<Byte>>, storedLen: nat, last: bool): Output {
      Output(blocks + [Block(tokens, buf, storedLen, last)], [])
    }

    /** Behind the first `preset` bytes of text, blocks and tokens decode to exactly the
        text up to n, and the blocks to the text up to start. */
    ghost predicate Says(far: int, text: seq<Byte>, preset: nat, start: nat, n: nat) {
      && preset <= start <= n <= |text|
      && Meaning(text[..preset], blocks) == text[..start]
      && Expand(text[..start], tokens) == text[..n]
      && StoredAgrees(text[..preset], blocks)
      && 0 <= far && Reaching(far, text[..start], tokens) && AllReaching(far, text[..preset], blocks)
    }
  }

  lemma {:induction false} CopyExtends(text: seq<Byte>, from: nat, to: nat, n: nat)
    requires from < to && to + n <= |text| && SameRun(text, from, to, n)
    ensures Copy(text[..to], to - from, n) == text[..to + n]
    decreases n
  {
    if n > 0 {
      CopyExtends(text, from, to, n - 1);
      CopyOneMore(text[..to], to - from, n - 1);
      assert text[..to + n] == text[..to + n - 1] + [text[to + n - 1]];
    }
  }

  lemma {:induction false} CopyOneMore(out: seq<Byte>, dist: nat, n: nat)
    requires 1 <= dist <= |out|
    ensures |Copy(out, dist, n)| == |out| + n
    ensures Copy(out, dist, n + 1) == Copy(out, dist, n) + [Copy(out, dist, n)[|out| + n - dist]]
    decreases n
  {
    if n > 0 { CopyOneMore(out + [out[|out| - dist]], dist, n - 1); }
  }

  lemma SaysLiteral(far: int, o: Output, text: seq<Byte>, preset: nat, start: nat, n: nat)
    requires o.Says(far, text, preset, start, n) && n < |text|
    ensures o.Tally(0, text[n]).Says(far, text, preset, start, n + 1)
  {
    ExpandOne(text[..start], o.tokens, Token(0, text[n]));
    ReachingOne(far, text[..start], o.tokens, Token(0, text[n]));
    assert text[..n] + [text[n]] == text[..n + 1];
  }

  lemma SaysMatch(far: int, o: Output, text: seq<Byte>, preset: nat, start: nat, n: nat, from: nat, len: nat)
    requires o.Says(far, text, preset, start, n)
    requires from < n && n - from <= far && n - from < 0x10000 && MIN_MATCH <= len <= MAX_MATCH
    requires n + len <= |text| && SameRun(text, from, n, len)
    ensures o.Tally(n - from, len - MIN_MATCH).Says(far, text, preset, start, n + len)
  {
    hide Meaning, StoredAgrees, AllReaching, Reaching, Expand, SameRun, Copy;
    TallyExact(o, n - from, len - MIN_MATCH);
    CopyExtends(text, from, n, len);
    SaysToken(far, o, text, preset, start, n, Token(n - from, len - MIN_MATCH), n + len);
  }

  lemma TallyExact(o: Output, dist: nat, lc: nat)
    requires dist < 0x10000 && lc < 0x100
    ensures o.Tally(dist, lc) == Output(o.blocks, o.tokens + [Token(dist, lc)])
  {
  }

  lemma SaysToken(far: int, o: Output, text: seq<Byte>, preset: nat, start: nat, n: nat, t: Token, n': nat)
    requires o.Says(far, text, preset, start, n)
    requires n <= n' <= |text| && Apply(text[..n], t) == text[..n'] && t.dist <= far && t.dist <= n
    ensures Output(o.blocks, o.tokens + [t]).Says(far, text, preset, start, n')
  {
    ExpandOne(text[..start], o.tokens, t);
    ReachingOne(far, text[..start], o.tokens, t);
  }

  lemma SaysFlush(far: int, o: Output, text: seq<Byte>, preset: nat, start: nat, n: nat, buf: Option<seq<Byte>>,
                  last: bool)
    requires o.Says(far, text, preset, start, n)
    requires buf.Some? ==> n - start < 0x10000 && buf.value == text[start..n]
    ensures o.Flush(buf, n - start, last).Says(far, text, preset, n, n)
  {
    hide Meaning, StoredAgrees, AllReaching, Reaching, Expand;
    assert text[..start] + text[start..n] == text[..n];
    OneMoreBlock(far, text[..preset], o.blocks, Block(o.tokens, buf, n - start, last));
    NoTokensSay(far, text[..n]);
  }

  lemma OneMoreBlock(far: int, out: seq<Byte>, blocks: seq<Block>, b: Block)
    ensures var before := Meaning(out, blocks);
            var after := Expand(before, b.tokens);
            && Meaning(out, blocks + [b]) == after
            && (StoredAgrees(out, blocks) && |after| == |before| + b.storedLen &&
                (b.buf.Some? ==> b.storedLen < 0x10000 && after == before + b.buf.value) ==>
                  StoredAgrees(out, blocks + [b]))
            && (AllReaching(far, out, blocks) && Reaching(far, before, b.tokens) ==>
                  AllReaching(far, out, blocks + [b]))
  {
    hide Expand, Reaching;
    assert (blocks + [b])[..|blocks|] == blocks;
  }

  lemma NoTokensSay(far: int, text: seq<Byte>)
    ensures Expand(text, []) == text && Reaching(far, text, [])
  {
  }

  lemma SaysMore(far: int, o: Output, text: seq<Byte>, longer: seq<Byte>, preset: nat, start: nat, n: nat)
    requires o.Says(far, text, preset, start, n) && text <= longer
    ensures o.Says(far, longer, preset, start, n)
  {
    assert longer[..preset] == text[..preset];
    assert longer[..start] == text[..start];
    assert longer[..n] == text[..n];
  }

  lemma PrefixOfSame<T>(a: seq<T>, b: seq<T>, c: seq<T>, d: seq<T>)
    requires a + b == c + d && |a| <= |c|
    ensures a <= c
  {
    assert a == (a + b)[..|a|] == (c + d)[..|a|] == c[..|a|];
  }
}
