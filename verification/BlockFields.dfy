/** The fields of block headers, and how distances and code lengths are filled in (zlib/infblock.c,
    zlib/infcodes.c). */
module BlockFields {
  import opened Arith
  import opened BitStrings

  /** `b & inflate_mask[n]`: the next n bits. */
  function Peek(s: Bits, pos: nat, n: nat): (r: nat)
    requires pos + n <= |s|
    ensures r < Pow2(n)
    decreases n
  {
    if n == 0 then 0 else Bit(s[pos]) + 2 * Peek(s, pos + 1, n - 1)
  }

  /** How far back a distance reaches: modulo the window size. */
  function Back(dist: nat, w: nat): (r: nat)
    requires w > 0
    ensures 1 <= r <= w
  {
    if dist == 0 then w else if dist <= w then dist else Back(dist - w, w)
  }

  const border: seq<nat> := [16, 17, 18, 0, 8, 7, 9, 6, 10, 5, 11, 4, 12, 3, 13, 2, 14, 1, 15]

  /** The counts in the 14 bits of a block header. */
  function LengthCodes(table: nat): nat { 257 + table % 32 }
  function DistCodes(table: nat): nat { 1 + table / 32 % 32 }
  function BitCodes(table: nat): nat { 4 + table / 1024 }
  function TotalCodes(table: nat): nat { LengthCodes(table) + DistCodes(table) }

  function Zeros(n: nat): (s: seq<nat>)
    ensures |s| == n && forall i :: 0 <= i < n ==> s[i] == 0
  {
    seq(n, _ => 0)
  }

  /** blens with zeros for the code length codes from index on. */
  function ZeroRest(blens: seq<nat>, index: nat): (r: seq<nat>)
    requires |blens| >= 19
    ensures |r| == |blens|
    decreases 19 - index
  {
    if index >= 19 then blens else ZeroRest(blens[border[index] := 0], index + 1)
  }

  /** n times c from index i on. */
  function Fill(blens: seq<nat>, i: nat, n: nat, c: nat): (r: seq<nat>)
    requires i + n <= |blens|
    ensures |r| == |blens|
    decreases n
  {
    if n == 0 then blens else Fill(blens[i := c], i + 1, n - 1, c)
  }

  lemma {:induction false} FillOk(blens: seq<nat>, i: nat, n: nat, c: nat, max: nat)
    requires i + n <= |blens| && c <= max && forall k :: 0 <= k < |blens| ==> blens[k] <= max
    ensures forall k :: 0 <= k < |blens| ==> Fill(blens, i, n, c)[k] <= max
    decreases n
  {
    if n > 0 { FillOk(blens[i := c], i + 1, n - 1, c, max); }
  }

  lemma {:induction false} ZeroOk(blens: seq<nat>, i: nat, max: nat)
    requires |blens| >= 19 && forall k :: 0 <= k < |blens| ==> blens[k] <= max
    ensures forall k :: 0 <= k < |blens| ==> ZeroRest(blens, i)[k] <= max
    decreases 19 - i
  {
    if i < 19 { ZeroOk(blens[border[i] := 0], i + 1, max); }
  }

  /** The next position on a byte boundary. */
  function ByteBoundary(pos: nat): (r: nat)
    ensures pos <= r < pos + 8 && r % 8 == 0
  {
    pos + (8 - pos % 8) % 8
  }

  /** Extra bits and least count of a repeat code. */
  function RepeatBits(c: nat): nat { if c == 18 then 7 else if c >= 14 then c - 14 else 0 }
  function RepeatBase(c: nat): nat { if c == 18 then 11 else 3 }

  /** No bits make the number zero. */
  lemma NothingToPeek(s: Bits, pos: nat)
    requires pos <= |s|
    ensures Peek(s, pos, 0) == 0
  {
  }

  lemma {:induction false} PeekIsLe(s: Bits, pos: nat, n: nat)
    requires pos + n <= |s|
    ensures Peek(s, pos, n) == Le(s[pos..pos + n])
    decreases n
  {
    if n > 0 {
      PeekIsLe(s, pos + 1, n - 1);
      assert s[pos..pos + n][1..] == s[pos + 1..pos + 1 + (n - 1)];
    }
  }

  lemma {:induction false} PeekAt(s: Bits, pos: nat, n: nat, t: Bits)
    requires pos + n <= |s| && s[pos..pos + n] == t
    ensures Peek(s, pos, n) == Le(t)
  {
    PeekIsLe(s, pos, n);
  }
}
