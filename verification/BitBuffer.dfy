/** The bit buffer of inflate (NEEDBITS and DUMPBITS of zlib/infutil.h, GRABBITS and UNGRAB of
    zlib/inffast.c): its low k bits are the next bits of the stream. Above them there may be
    bits of bytes that were handed back; they agree with the stream, so reading those bytes
    again changes nothing. */
module BitBuffer {
  import opened Arith
  import opened BitStrings
  import opened BitStream
  import opened StringHash
  import opened BlockFields

  /** Every bit set in b is set in the stream. */
  ghost predicate Sub(b: nat, s: Bits, pos: nat)
    decreases b
  {
    b == 0 || (pos < |s| && (b % 2 == 1 ==> s[pos]) && Sub(b / 2, s, pos + 1))
  }

  /** The low k bits of b are those of the stream at pos, and the bits above agree with it. */
  ghost predicate Holds(b: nat, k: nat, s: Bits, pos: nat)
    decreases k
  {
    if k == 0 then Sub(b, s, pos)
    else pos < |s| && (b % 2 == 1 <==> s[pos]) && Holds(b / 2, k - 1, s, pos + 1)
  }

  lemma OrStep(x: nat, y: nat)
    ensures Or(x, y) % 2 == 1 <==> x % 2 == 1 || y % 2 == 1
    ensures Or(x, y) / 2 == Or(x / 2, y / 2)
  {
  }

  lemma {:induction false} SubOr(b: nat, x: nat, n: nat, s: Bits, pos: nat)
    requires Sub(b, s, pos) && x < Pow2(n) && pos + n <= |s|
    requires forall i :: 0 <= i < n ==> (s[pos + i] <==> BitsOf(x, n)[i])
    ensures Holds(Or(b, x), n, s, pos)
    decreases n
  {
    if n > 0 {
      OrStep(b, x);
      assert s[pos + 0] <==> BitsOf(x, n)[0];
      var rest := BitsOf(x / 2, n - 1);
      forall i | 0 <= i < n - 1 ensures s[pos + 1 + i] <==> rest[i] {
        assert s[pos + (i + 1)] <==> BitsOf(x, n)[i + 1];
      }
      SubOr(b / 2, x / 2, n - 1, s, pos + 1);
    }
  }

  /** `b |= NEXTBYTE << k`: eight more bits. */
  lemma {:induction false} HoldsByte(b: nat, k: nat, s: Bits, pos: nat, x: Byte)
    requires Holds(b, k, s, pos) && pos + k + 8 <= |s| && s[pos + k..pos + k + 8] == BitsOf(x, 8)
    ensures Holds(Or(b, Shl(x, k)), k + 8, s, pos)
    decreases k
  {
    if k == 0 {
      assert Pow2(8) == 256;
      forall i | 0 <= i < 8 ensures s[pos + i] <==> BitsOf(x, 8)[i] { assert s[pos + i] == s[pos + k..pos + k + 8][i]; }
      SubOr(b, x, 8, s, pos);
    } else {
      OrStep(b, Shl(x, k));
      HoldsByte(b / 2, k - 1, s, pos + 1, x);
    }
  }

  /** DUMPBITS. */
  lemma {:induction false} HoldsDump(b: nat, k: nat, s: Bits, pos: nat, j: nat)
    requires Holds(b, k, s, pos) && j <= k
    ensures Holds(Shr(b, j), k - j, s, pos + j)
    decreases j
  {
    if j > 0 { HoldsDump(b / 2, k - 1, s, pos + 1, j - 1); }
  }

  /** Handing bytes back: the bits stay in the buffer but no longer count. */
  lemma {:induction false} HoldsLess(b: nat, k: nat, s: Bits, pos: nat, j: nat)
    requires Holds(b, k, s, pos) && j <= k
    ensures Holds(b, j, s, pos)
    decreases k
  {
    if k > 0 { HoldsLess(b / 2, k - 1, s, pos + 1, if j > 0 then j - 1 else 0); }
  }

  /** `b & inflate_mask[j]`. */
  lemma {:induction false} HoldsPeek(b: nat, k: nat, s: Bits, pos: nat, j: nat)
    requires Holds(b, k, s, pos) && j <= k && pos <= |s|
    ensures pos + j <= |s| && Low(b, j) == Peek(s, pos, j)
    decreases j
  {
    if j > 0 { HoldsPeek(b / 2, k - 1, s, pos + 1, j - 1); }
  }

  /** Where a byte is in the bits of the stream. */
  lemma {:induction false} ByteAt(bytes: seq<Byte>, i: nat)
    requires i < |bytes|
    ensures BytesBits(bytes)[8 * i..8 * i + 8] == BitsOf(bytes[i], 8)
    decreases |bytes|
  {
    hide BitsOf;
    var n := |bytes| - 1;
    if i < n {
      ByteAt(bytes[..n], i);
      assert BytesBits(bytes)[8 * i..8 * i + 8] == BytesBits(bytes[..n])[8 * i..8 * i + 8];
    } else {
      assert BytesBits(bytes)[8 * n..8 * n + 8] == BitsOf(bytes[n], 8);
    }
  }

  /** One more than the greatest uLong of 32 bits. */
  const WORD := 0x1_0000_0000

  /** The bit buffer between bytes nextIn of the stream and the logical position; no bit is ever
      shifted out of a word of 32 bits. */
  ghost predicate ReaderOk(stream: seq<Byte>, nextIn: nat, end: nat, b: nat, k: nat) {
    && nextIn <= end <= |stream| && k <= 8 * nextIn && k <= 32 && b < WORD
    && Holds(b, k, BytesBits(stream), 8 * nextIn - k)
  }

  lemma {:induction false} OrBelow(x: nat, y: nat, n: nat)
    requires x < Pow2(n) && y < Pow2(n)
    ensures Or(x, y) < Pow2(n)
    decreases n
  {
    if n > 0 { OrBelow(x / 2, y / 2, n - 1); }
  }

  lemma ByteInWord(b: nat, x: Byte, k: nat)
    requires b < WORD && k <= 24
    ensures Or(b, Shl(x, k)) < WORD
  {
    hide Or, Shl, Pow2;
    WordPowers();
    ShlBound(x, 8, k);
    Pow2Mono(8 + k, 32);
    OrBelow(b, Shl(x, k), 32);
  }

  lemma WordPowers()
    ensures Pow2(8) == 0x100 && Pow2(32) == WORD
  {
    assert Pow2(8) == 0x100;
    Pow2Add(8, 8);
    Pow2Add(16, 16);
  }

  lemma {:induction false} ShrAtMost(b: nat, j: nat)
    ensures Shr(b, j) <= b
    decreases j
  {
    if j > 0 { ShrAtMost(b / 2, j - 1); }
  }

  lemma TakeByte(stream: seq<Byte>, nextIn: nat, end: nat, b: nat, k: nat)
    requires ReaderOk(stream, nextIn, end, b, k) && nextIn < end && k <= 24
    ensures ReaderOk(stream, nextIn + 1, end, Or(b, Shl(stream[nextIn], k)), k + 8)
  {
    hide Holds, BytesBits, Or, Shl, BitsOf;
    ByteAt(stream, nextIn);
    ByteInWord(b, stream[nextIn], k);
    HoldsByte(b, k, BytesBits(stream), 8 * nextIn - k, stream[nextIn]);
  }

  lemma DropBits(stream: seq<Byte>, nextIn: nat, end: nat, b: nat, k: nat, j: nat)
    requires ReaderOk(stream, nextIn, end, b, k) && j <= k
    ensures ReaderOk(stream, nextIn, end, Shr(b, j), k - j)
    ensures 8 * nextIn - k + j <= 8 * |stream| && Low(b, j) == Peek(BytesBits(stream), 8 * nextIn - k, j)
  {
    hide Holds, BytesBits, Shr;
    ShrAtMost(b, j);
    HoldsDump(b, k, BytesBits(stream), 8 * nextIn - k, j);
    HoldsPeek(b, k, BytesBits(stream), 8 * nextIn - k, j);
  }

  /** c whole bytes go back to the input. */
  lemma ReturnBytes(stream: seq<Byte>, nextIn: nat, end: nat, b: nat, k: nat, c: nat)
    requires ReaderOk(stream, nextIn, end, b, k) && 8 * c <= k
    ensures c <= nextIn && ReaderOk(stream, nextIn - c, end, b, k - 8 * c)
  {
    hide Holds, BytesBits;
    HoldsLess(b, k, BytesBits(stream), 8 * nextIn - k, k - 8 * c);
  }

  /** An empty bit buffer on a byte boundary. */
  lemma EmptyBuffer(stream: seq<Byte>, nextIn: nat, end: nat)
    requires nextIn <= end <= |stream|
    ensures ReaderOk(stream, nextIn, end, 0, 0)
  {
  }
}
