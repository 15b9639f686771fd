/** Adler-32 (section 8.2 of RFC 1950) and zlib/adler32.c, which takes remainders only once
    per NMAX bytes. */
module Adler {
  import opened StringHash

  const BASE := 65521
  const NMAX := 5552

  /** The two sums, each modulo BASE. */
  datatype Sums = Sums(s1: nat, s2: nat) {

    /** One more byte. */
    function Add(x: Byte): Sums {
      var t := (s1 + x) % BASE;
      Sums(t, (s2 + t) % BASE)
    }

    /** A string of bytes, one at a time. */
    function Over(data: seq<Byte>): (r: Sums) {
      if data == [] then this else Over(data[..|data| - 1]).Add(data[|data| - 1])
    }
  }

  /** The checksum word: the second sum in its upper half. */
  function Pack(s: Sums): nat { s.s2 * 0x10000 + s.s1 }

  function Unpack(adler: nat): Sums { Sums(adler % 0x10000, adler / 0x10000 % 0x10000) }

  /** The checksum of a text. */
  function Checksum(data: seq<Byte>): nat { Pack(Sums(1, 0).Over(data)) }

  lemma {:induction false} OverConcat(s: Sums, x: seq<Byte>, y: seq<Byte>)
    ensures s.Over(x + y) == s.Over(x).Over(y)
    decreases |y|
  {
    if y == [] {
      assert x + y == x;
    } else {
      var n := |y| - 1;
      assert (x + y)[..|x| + n] == x + y[..n];
      OverConcat(s, x, y[..n]);
    }
  }

  lemma {:induction false} OverReduced(s: Sums, data: seq<Byte>)
    requires s.s1 < BASE && s.s2 < BASE
    ensures s.Over(data).s1 < BASE && s.Over(data).s2 < BASE
  {
    if data != [] { OverReduced(s, data[..|data| - 1]); }
  }

  lemma UnpackPack(s: Sums)
    requires s.s1 < 0x10000 && s.s2 < 0x10000
    ensures Unpack(Pack(s)) == s
  {
  }

  /** Checking x and then y is checking x + y. */
  lemma ChecksumConcat(x: seq<Byte>, y: seq<Byte>)
    ensures Pack(Unpack(Checksum(x)).Over(y)) == Checksum(x + y)
  {
    OverConcat(Sums(1, 0), x, y);
    OverReduced(Sums(1, 0), x);
    UnpackPack(Sums(1, 0).Over(x));
  }

  lemma ChecksumNone()
    ensures Checksum([]) == 1
  {
  }

  /** A checksum is a word of 32 bits. */
  lemma ChecksumFits(data: seq<Byte>)
    ensures Checksum(data) < 0x1_0000_0000
  {
    OverReduced(Sums(1, 0), data);
  }

  /** adler32 goes on from the checksum of x. */
  lemma ChecksumMore(x: seq<Byte>, data: seq<Byte>, r: nat)
    requires if data != [] then r == Pack(Unpack(Checksum(x)).Over(data)) else r == Checksum(x)
    ensures r == Checksum(x + data)
  {
    hide Checksum, Pack, Unpack, Sums.Over;
    ChecksumConcat(x, data);
    assert x + [] == x;
  }

  /** Sums whose remainders have been put off are right modulo BASE, and after i bytes since the
      last remainders they are within these bounds. */
  ghost predicate Deferred(s1: nat, s2: nat, i: nat, exact: Sums) {
    && i <= NMAX && s1 % BASE == exact.s1 % BASE && s2 % BASE == exact.s2 % BASE
    && s1 <= 0xffff + 255 * i && s2 <= 0xffff * (i + 1) + Triangle(i)
  }

  /** 255 times the sum of the numbers up to i. */
  function Triangle(i: nat): nat { if i == 0 then 0 else Triangle(i - 1) + 255 * i }

  lemma {:induction false} TriangleIs(i: nat)
    ensures 2 * Triangle(i) == 255 * i * (i + 1)
  {
    if i > 0 { TriangleIs(i - 1); }
  }

  lemma {:induction false} TriangleGrows(i: nat, j: nat)
    requires i <= j
    ensures Triangle(i) <= Triangle(j)
    decreases j
  {
    if i < j { TriangleGrows(i, j - 1); }
  }

  lemma TriangleBound(i: nat)
    requires i <= NMAX
    ensures Triangle(i) <= 3930857640
  {
    TriangleIs(NMAX);
    TriangleGrows(i, NMAX);
  }

  /** Within NMAX bytes no sum overflows 32 bits. */
  lemma NoOverflow(s1: nat, s2: nat, i: nat, exact: Sums)
    requires Deferred(s1, s2, i, exact)
    ensures s1 < 0x1_0000_0000 && s2 < 0x1_0000_0000
  {
    TriangleBound(i);
  }

  lemma DeferredAdd(s1: nat, s2: nat, i: nat, exact: Sums, x: Byte)
    requires Deferred(s1, s2, i, exact) && i < NMAX
    ensures Deferred(s1 + x, s2 + s1 + x, i + 1, exact.Add(x))
  {
    SameRemainder(s1, exact.s1, x);
    SameRemainder(s2, exact.s2, s1 + x);
    SameRemainder(s1 + x, exact.s1 + x, exact.s2);
    SameRemainder((exact.s1 + x) % BASE, exact.s1 + x, exact.s2);
  }

  lemma SameRemainder(a: nat, b: nat, c: nat)
    requires a % BASE == b % BASE
    ensures (a + c) % BASE == (b + c) % BASE
  {
  }

  /** The inner loops of adler32: n bytes without remainders. */
  method AddChunk(data: seq<Byte>, at: nat, n: nat, t1: nat, t2: nat, ghost exact0: Sums)
    returns (s1: nat, s2: nat, ghost exact: Sums)
    requires n <= NMAX && at + n <= |data| && Deferred(t1, t2, 0, exact0)
    ensures Deferred(s1, s2, n, exact) && exact == exact0.Over(data[at..at + n])
  {
    hide Deferred, Sums.Add;
    s1, s2, exact := t1, t2, exact0;
    var i := 0;
    while i < n
      invariant 0 <= i <= n && Deferred(s1, s2, i, exact) && exact == exact0.Over(data[at..at + i])
    {
      DeferredAdd(s1, s2, i, exact, data[at + i]);
      NoOverflow(s1, s2, i, exact);
      assert data[at..at + i + 1][..i] == data[at..at + i];
      exact := exact.Add(data[at + i]);
      s1 := s1 + data[at + i];
      s2 := s2 + s1;
      i := i + 1;
    }
  }

  /** adler32 on a buffer that is not null. */
  method Adler32(adler: nat, data: seq<Byte>) returns (r: nat)
    requires adler < 0x1_0000_0000
    ensures data != [] ==> r == Pack(Unpack(adler).Over(data))
    ensures data == [] ==> r == adler
  {
    hide Deferred, Sums.Over;
    var s1: nat, s2: nat := adler % 0x10000, adler / 0x10000 % 0x10000;
    ghost var exact := Unpack(adler);
    var at := 0;
    OverNone(exact);
    assert data[..0] == [];
    while at < |data|
      invariant 0 <= at <= |data| && exact == Unpack(adler).Over(data[..at])
      invariant s1 < 0x10000 && s2 < 0x10000
      invariant s1 % BASE == exact.s1 % BASE && s2 % BASE == exact.s2 % BASE
      invariant if at > 0 then s1 == exact.s1 && s2 == exact.s2 else s2 * 0x10000 + s1 == adler
    {
      var k := if |data| - at < NMAX then |data| - at else NMAX;
      StartChunk(s1, s2, exact);
      ghost var exact0 := exact;
      s1, s2, exact := AddChunk(data, at, k, s1, s2, exact);
      EndChunk(s1, s2, k, exact0, data[at..at + k], exact);
      OverConcat(Unpack(adler), data[..at], data[at..at + k]);
      assert data[..at] + data[at..at + k] == data[..at + k];
      s1, s2 := s1 % BASE, s2 % BASE;
      at := at + k;
    }
    assert data[..|data|] == data;
    r := s2 * 0x10000 + s1;
  }

  lemma OverNone(s: Sums)
    ensures s.Over([]) == s
  {
  }

  lemma StartChunk(s1: nat, s2: nat, exact: Sums)
    requires s1 < 0x10000 && s2 < 0x10000 && s1 % BASE == exact.s1 % BASE && s2 % BASE == exact.s2 % BASE
    ensures Deferred(s1, s2, 0, exact)
  {
  }

  lemma EndChunk(s1: nat, s2: nat, n: nat, exact0: Sums, data: seq<Byte>, exact: Sums)
    requires Deferred(s1, s2, n, exact) && exact == exact0.Over(data) && data != []
    ensures s1 % BASE == exact.s1 && s2 % BASE == exact.s2 && exact.s1 < BASE && exact.s2 < BASE
  {
  }
}
