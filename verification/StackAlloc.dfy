/** gmp/stack-alloc.c: temporary blocks taken from a stack of chunks. */
module StackAlloc {
  /** __TMP_ALIGN. */
  const ALIGN := 8

  /** Rounded up to a multiple of ALIGN, as TMP_ALLOC does. */
  function Rounded(n: nat): (r: nat)
    ensures n <= r < n + ALIGN && r % ALIGN == 0
  {
    n + ALIGN - 1 - (n + ALIGN - 1) % ALIGN
  }

  /** HSIZ, for a header of three words of eight bytes. */
  const HSIZ: nat := Rounded(24)

  /** A chunk in memory: its bytes from start to end, those below point are in use. */
  datatype Extent = Extent(start: nat, end: nat, point: nat)

  /** A block and the number of the chunk that it comes from; chunk 0 is the static header. */
  datatype Block = Block(level: nat, addr: nat, size: nat) {
    predicate Has(a: nat) { addr <= a < addr + size }
  }

  predicate ChunkOk(e: Extent) {
    e.start % ALIGN == 0 && e.point % ALIGN == 0 && e.start + HSIZ <= e.point <= e.end
  }

  predicate Apart(a: Extent, b: Extent) { a.end <= b.start || b.end <= a.start }

  /** A block lies behind the header of its chunk, aligned, below the allocation point. The
      static header has no bytes to give. */
  predicate Inside(ext: seq<Extent>, b: Block) {
    && b.level < |ext| && b.addr + b.size <= ext[b.level].point
    && if b.level == 0 then b.size == 0 else ext[b.level].start + HSIZ <= b.addr && b.addr % ALIGN == 0
  }

  /** Block a was taken before block b. */
  predicate Before(a: Block, b: Block) {
    a.level < b.level || (a.level == b.level && a.addr + a.size <= b.addr)
  }

  /** Chunks that do not overlap, and blocks in the order in which they were taken. */
  ghost predicate SpaceOk(ext: seq<Extent>, live: seq<Block>) {
    && ext != [] && ext[0].point == ext[0].end
    && (forall i :: 1 <= i < |ext| ==> ChunkOk(ext[i]))
    && (forall i, j :: 1 <= i < j < |ext| ==> Apart(ext[i], ext[j]))
    && (forall i :: 0 <= i < |live| ==> Inside(ext, live[i]))
    && (forall i, j :: 0 <= i < j < |live| ==> Before(live[i], live[j]))
  }

  /** No byte belongs to two blocks. */
  lemma BlocksDisjoint(ext: seq<Extent>, live: seq<Block>, i: nat, j: nat, a: nat)
    requires SpaceOk(ext, live) && i < j < |live| && live[i].Has(a)
    ensures !live[j].Has(a)
  {
    var x, y := live[i], live[j];
    assert Before(x, y) && Inside(ext, x) && Inside(ext, y);
    if x.level < y.level && x.level > 0 { assert Apart(ext[x.level], ext[y.level]); }
  }

  /** Nor to the header of any chunk. */
  lemma HeadersUntouched(ext: seq<Extent>, live: seq<Block>, i: nat, k: nat, a: nat)
    requires SpaceOk(ext, live) && i < |live| && 1 <= k < |ext| && live[i].Has(a)
    ensures !(ext[k].start <= a < ext[k].start + HSIZ) && live[i].addr % ALIGN == 0
    ensures 1 <= live[i].level < |ext| && ext[live[i].level].start + HSIZ <= a < ext[live[i].level].end
  {
    var x := live[i];
    assert Inside(ext, x) && ChunkOk(ext[k]);
    if x.level < k { assert Apart(ext[x.level], ext[k]); }
    if k < x.level { assert Apart(ext[k], ext[x.level]); }
  }

  /** The bytes of all chunks, without the headers. */
  function Payload(ext: seq<Extent>): int
    decreases |ext|
  {
    if |ext| <= 1 then 0 else Payload(ext[..|ext| - 1]) + ext[|ext| - 1].end - ext[|ext| - 1].start - HSIZ
  }

  /** size bytes of the last chunk are taken. */
  function Taken(ext: seq<Extent>, size: nat): (r: seq<Extent>)
    requires ext != []
    ensures |r| == |ext|
  {
    var e := ext[|ext| - 1];
    ext[|ext| - 1 := e.(point := e.point + size)]
  }

  lemma TakenPayload(ext: seq<Extent>, size: nat)
    requires ext != []
    ensures Payload(Taken(ext, size)) == Payload(ext)
  {
    assert Taken(ext, size)[..|ext| - 1] == ext[..|ext| - 1];
  }

  lemma TakenOk(ext: seq<Extent>, live: seq<Block>, size: nat)
    requires SpaceOk(ext, live) && size % ALIGN == 0 && ext[|ext| - 1].point + size <= ext[|ext| - 1].end
    ensures SpaceOk(Taken(ext, size), live + [Block(|ext| - 1, ext[|ext| - 1].point, size)])
  {
    var n := |ext| - 1;
    var t, b := Taken(ext, size), Block(n, ext[n].point, size);
    if n > 0 { assert ChunkOk(ext[n]); }
    forall i, j | 1 <= i < j < |t| ensures Apart(t[i], t[j]) { assert Apart(ext[i], ext[j]); }
    forall i | 0 <= i < |live| ensures Inside(t, live[i]) && Before(live[i], b) { assert Inside(ext, live[i]); }
  }

  /** A chunk of size bytes at start is put on top. */
  function Grown(ext: seq<Extent>, start: nat, size: nat): seq<Extent> {
    ext + [Extent(start, start + size, start + HSIZ)]
  }

  lemma GrownOk(ext: seq<Extent>, live: seq<Block>, start: nat, size: nat)
    requires SpaceOk(ext, live) && start % ALIGN == 0 && HSIZ <= size
    requires forall i :: 1 <= i < |ext| ==> Apart(ext[i], Extent(start, start + size, start + HSIZ))
    ensures SpaceOk(Grown(ext, start, size), live) && Payload(Grown(ext, start, size)) == Payload(ext) + size - HSIZ
  {
    var g := Grown(ext, start, size);
    assert g[..|ext|] == ext;
    forall i | 0 <= i < |live| ensures Inside(g, live[i]) { assert Inside(ext, live[i]); }
  }

  /** The chunks and blocks have grown from ext0 and live0: no chunk and no block of those times
      is gone, and nothing but the last allocation point has moved. */
  ghost predicate Since(ext0: seq<Extent>, live0: seq<Block>, ext: seq<Extent>, live: seq<Block>) {
    && SpaceOk(ext0, live0) && |ext0| <= |ext| && live0 <= live
    && (forall i :: 0 <= i < |ext0| - 1 ==> ext[i] == ext0[i])
    && ext[|ext0| - 1] == ext0[|ext0| - 1].(point := ext[|ext0| - 1].point)
  }

  lemma SinceTaken(ext0: seq<Extent>, live0: seq<Block>, ext: seq<Extent>, live: seq<Block>, size: nat, b: Block)
    requires ext != [] && Since(ext0, live0, ext, live)
    ensures Since(ext0, live0, Taken(ext, size), live + [b])
  {
  }

  lemma SinceGrown(ext0: seq<Extent>, live0: seq<Block>, ext: seq<Extent>, live: seq<Block>, start: nat, size: nat)
    requires Since(ext0, live0, ext, live)
    ensures Since(ext0, live0, Grown(ext, start, size), live)
  {
  }

  lemma SinceIs(ext0: seq<Extent>, live0: seq<Block>, ext: seq<Extent>, live: seq<Block>)
    requires Since(ext0, live0, ext, live)
    ensures 0 < |ext0| <= |ext| && live0 <= live && SpaceOk(ext0, live0)
    ensures ext0 == ext[..|ext0|][|ext0| - 1 := ext[|ext0| - 1].(point := ext0[|ext0| - 1].point)]
  {
  }

  lemma {:induction false} PayloadMono(ext: seq<Extent>, live: seq<Block>, n: nat, m: nat)
    requires SpaceOk(ext, live) && n <= m <= |ext|
    ensures Payload(ext[..n]) <= Payload(ext[..m])
    decreases m
  {
    if n < m && m > 1 {
      PayloadMono(ext, live, n, m - 1);
      assert ext[..m][..m - 1] == ext[..m - 1] && ChunkOk(ext[m - 1]);
    }
  }

  /** Moving the last allocation point does not change what the chunks hold. */
  lemma PointPayload(ext: seq<Extent>, point: nat)
    requires ext != []
    ensures Payload(ext[|ext| - 1 := ext[|ext| - 1].(point := point)]) == Payload(ext)
  {
    assert ext[|ext| - 1 := ext[|ext| - 1].(point := point)][..|ext| - 1] == ext[..|ext| - 1];
  }

  /** tmp_stack. */
  class Chunk {
    const start: nat
    const end: nat
    const prev: Chunk?
    var allocPoint: nat

    constructor (start: nat, end: nat, allocPoint: nat, prev: Chunk?)
      ensures this.start == start && this.end == end && this.allocPoint == allocPoint && this.prev == prev
    {
      this.start, this.end, this.allocPoint, this.prev := start, end, allocPoint, prev;
    }

    ghost function View(): Extent
      reads this
    {
      Extent(start, end, allocPoint)
    }
  }

  ghost function Views(chunks: seq<Chunk>): (r: seq<Extent>)
    reads chunks
    ensures |r| == |chunks| && forall i :: 0 <= i < |r| ==> r[i] == chunks[i].View()
  {
    if chunks == [] then [] else Views(chunks[..|chunks| - 1]) + [chunks[|chunks| - 1].View()]
  }

  /** tmp_marker. */
  datatype Marker = Marker(whichChunk: Chunk, allocPoint: nat)

  /** The static variables, the stack of chunks and the blocks that have been taken from it. */
  class Allocator {
    var maxTotalAllocation: nat
    var currentTotalAllocation: nat
    var current: Chunk
    ghost var chunks: seq<Chunk>
    ghost var live: seq<Block>

    ghost function Space(): (r: seq<Extent>)
      reads this`chunks, chunks
    {
      Views(chunks)
    }

    /** The chunks are linked from current down to the static one. */
    ghost predicate Linked()
      reads this`chunks, this`current
    {
      && chunks != [] && current == chunks[|chunks| - 1]
      && (forall i :: 0 < i < |chunks| ==> chunks[i].prev == chunks[i - 1])
      && (forall i, j :: 0 <= i < j < |chunks| ==> chunks[i] != chunks[j])
    }

    ghost predicate Valid()
      reads this, chunks
    {
      && Linked() && SpaceOk(Space(), live)
      && currentTotalAllocation == Payload(Space()) <= maxTotalAllocation
    }

    /** The mark was set when the chunks were ext0 and the blocks live0, and has not been freed. */
    ghost predicate Marked(mark: Marker, ext0: seq<Extent>, live0: seq<Block>)
      reads this`chunks, this`live, chunks
    {
      && Since(ext0, live0, Space(), live)
      && mark.whichChunk == chunks[|ext0| - 1] && mark.allocPoint == ext0[|ext0| - 1].point
    }

    /** The static variables as they are at first; the header is somewhere in memory. */
    constructor (at: nat)
      ensures Valid() && live == [] && maxTotalAllocation == currentTotalAllocation == 0 && fresh(current)
    {
      current := new Chunk(at, at, at, null);
      maxTotalAllocation, currentTotalAllocation, live := 0, 0, [];
      new;
      chunks := [current];
    }

    /** The last chunk has no room for size bytes. */
    predicate Full(size: nat)
      reads this`current, current
    {
      size > current.end - current.allocPoint
    }

    /** The total allocation once there is another chunk: half as much again as ever before, if
        that is needed. */
    function NextTotal(size: nat): nat
      reads this`currentTotalAllocation, this`maxTotalAllocation
    {
      var now := currentTotalAllocation + size;
      if now > maxTotalAllocation then now * 3 / 2 else maxTotalAllocation
    }

    /** The size of that chunk. */
    function ChunkSize(size: nat): nat
      reads this`currentTotalAllocation, this`maxTotalAllocation
      requires currentTotalAllocation <= maxTotalAllocation
      ensures ChunkSize(size) >= size + HSIZ
    {
      NextTotal(size) - currentTotalAllocation + HSIZ
    }

    /** The memory from chunk on is free for n bytes. */
    ghost predicate Unused(chunk: nat, n: nat)
      reads this`chunks, chunks
    {
      forall i :: 1 <= i < |chunks| ==> Apart(Views(chunks)[i], Extent(chunk, chunk + n, chunk + HSIZ))
    }

    /** __gmp_tmp_alloc. chunk is what __gmp_allocate_func returns if it is called: aligned
        memory that is not in use. */
    method Alloc(size: nat, chunk: nat) returns (that: nat)
      requires Valid() && size % ALIGN == 0
      requires Full(size) ==> chunk % ALIGN == 0 && Unused(chunk, ChunkSize(size))
      modifies this, current
      ensures Valid() && live == old(live) + [Block(|chunks| - 1, that, size)]
      ensures if old(Full(size))
              then |chunks| == |old(chunks)| + 1 && that == chunk + HSIZ &&
                   maxTotalAllocation == old(NextTotal(size)) && fresh(current)
              else chunks == old(chunks) && that == old(current.allocPoint) &&
                   maxTotalAllocation == old(maxTotalAllocation)
      ensures chunks[..|old(chunks)|] == old(chunks)
      ensures forall ext0, live0 :: Since(ext0, live0, old(Space()), old(live)) ==> Since(ext0, live0, Space(), live)
    {
      hide SpaceOk, Since, Views;
      if Full(size) { NewChunk(size, chunk); }
      assert size <= current.end - current.allocPoint;
      that := TakeFrom(size);
    }

    /** The size of the next chunk, and the totals with it. */
    method Raise(size: nat) returns (chunkSize: nat)
      requires currentTotalAllocation <= maxTotalAllocation
      modifies this`currentTotalAllocation, this`maxTotalAllocation
      ensures chunkSize == old(ChunkSize(size)) && currentTotalAllocation == maxTotalAllocation == old(NextTotal(size))
      ensures maxTotalAllocation >= old(maxTotalAllocation) &&
              currentTotalAllocation == old(currentTotalAllocation) + chunkSize - HSIZ
    {
      var now := currentTotalAllocation + size;
      if now > maxTotalAllocation {
        now := now * 3 / 2;
        chunkSize := now - currentTotalAllocation + HSIZ;
        currentTotalAllocation := now;
        maxTotalAllocation := currentTotalAllocation;
      } else {
        chunkSize := maxTotalAllocation - currentTotalAllocation + HSIZ;
        currentTotalAllocation := maxTotalAllocation;
      }
    }

    /** A chunk that has room for size bytes, on top of the stack. */
    method NewChunk(size: nat, chunk: nat)
      requires Valid() && chunk % ALIGN == 0 && Unused(chunk, ChunkSize(size))
      modifies this`chunks, this`current, this`currentTotalAllocation, this`maxTotalAllocation
      ensures Valid() && Space() == Grown(old(Space()), chunk, old(ChunkSize(size))) && !Full(size)
      ensures chunks == old(chunks) + [current] && fresh(current) && current.allocPoint == chunk + HSIZ
      ensures maxTotalAllocation == old(NextTotal(size))
      ensures forall ext0, live0 :: Since(ext0, live0, old(Space()), old(live)) ==> Since(ext0, live0, Space(), live)
    {
      hide SpaceOk, Since, Views, Payload, Apart;
      ghost var was := Space();
      var chunkSize := Raise(size);
      current := new Chunk(chunk, chunk + chunkSize, chunk + HSIZ, current);
      chunks := chunks + [current];
      GrownOk(was, live, chunk, chunkSize);
      assert Space() == Grown(was, chunk, chunkSize);
      forall ext0, live0 | Since(ext0, live0, was, live) ensures Since(ext0, live0, Space(), live) {
        SinceGrown(ext0, live0, was, live, chunk, chunkSize);
      }
    }

    /** The next size bytes of the last chunk. */
    method TakeFrom(size: nat) returns (that: nat)
      requires Valid() && size % ALIGN == 0 && !Full(size)
      modifies current, this`live
      ensures Valid() && that == old(current.allocPoint) && live == old(live) + [Block(|chunks| - 1, that, size)]
      ensures Space() == Taken(old(Space()), size)
      ensures forall ext0, live0 :: Since(ext0, live0, old(Space()), old(live)) ==> Since(ext0, live0, Space(), live)
    {
      hide SpaceOk, Since, Views;
      ghost var was, had := Space(), live;
      that := current.allocPoint;
      TakenOk(was, live, size);
      TakenPayload(was, size);
      current.allocPoint := that + size;
      live := live + [Block(|chunks| - 1, that, size)];
      assert Space() == Taken(was, size);
      forall ext0, live0 | Since(ext0, live0, was, had) ensures Since(ext0, live0, Space(), live) {
        SinceTaken(ext0, live0, was, had, size, Block(|chunks| - 1, that, size));
      }
    }

    /** __gmp_tmp_mark. */
    method Mark() returns (mark: Marker)
      requires Valid()
      ensures Marked(mark, Space(), live)
    {
      mark := Marker(current, current.allocPoint);
    }

    /** The loop of __gmp_tmp_free: the chunks above n are given back. */
    method Pop(whichChunk: Chunk, ghost n: nat)
      requires Valid() && 1 <= n <= |chunks| && whichChunk == chunks[n - 1]
      modifies this`current, this`currentTotalAllocation, this`chunks
      ensures chunks == old(chunks)[..n] && Linked() && current == whichChunk
      ensures Space() == old(Space())[..n] && currentTotalAllocation == Payload(Space())
    {
      hide SpaceOk, Views;
      ghost var was := Space();
      assert was[..|was|] == was && chunks[..|chunks|] == chunks;
      while whichChunk != current
        modifies this`current, this`currentTotalAllocation, this`chunks
        invariant n <= |chunks| <= |old(chunks)| && chunks == old(chunks)[..|chunks|] && Linked()
        invariant whichChunk == chunks[n - 1] && currentTotalAllocation == Payload(was[..|chunks|])
        decreases |chunks|
      {
        var tmp := current;
        ghost var k := |chunks| - 1;
        PayloadMono(was, live, 0, k);
        assert old(chunks)[..k + 1][..k] == old(chunks)[..k];
        assert was[..k + 1][..k] == was[..k] && chunks[k].prev == chunks[k - 1] && was[k] == tmp.View();
        current := tmp.prev;
        currentTotalAllocation := currentTotalAllocation - (tmp.end - tmp.start - HSIZ);
        chunks := chunks[..k];
      }
      assert Space() == was[..n];
    }

    /** __gmp_tmp_free: everything is as it was when the mark was set, but for the chunk size to
        aim at. */
    method Free(mark: Marker, ghost ext0: seq<Extent>, ghost live0: seq<Block>)
      requires Valid() && Marked(mark, ext0, live0)
      modifies this`current, this`currentTotalAllocation, this`chunks, this`live, mark.whichChunk
      ensures Valid() && Space() == ext0 && live == live0 && current == mark.whichChunk &&
              current.allocPoint == mark.allocPoint
      ensures chunks == old(chunks)[..|ext0|] && currentTotalAllocation == Payload(ext0)
    {
      hide SpaceOk, Since, Views;
      ghost var was, n := Space(), |ext0|;
      SinceIs(ext0, live0, was, live);
      PayloadMono(was, live, n, |was|);
      assert was[..|was|] == was;
      Pop(mark.whichChunk, n);
      PointPayload(was[..n], mark.allocPoint);
      current.allocPoint := mark.allocPoint;
      live := live0;
      assert Space() == was[..n][n - 1 := was[n - 1].(point := mark.allocPoint)];
    }
  }
}
