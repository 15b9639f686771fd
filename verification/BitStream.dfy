/** Numbers and bytes as bit strings, least significant bit first (section 3.1.1 of RFC 1951). */
module BitStream {
  import opened Arith
  import opened BitStrings
  import opened StringHash

  /** `x | y` on unsigned words. */
  function Or(x: nat, y: nat): (r: nat)
    decreases x + y
  {
    if x == 0 then y else if y == 0 then x
    else (if x % 2 == 0 && y % 2 == 0 then 0 else 1) + 2 * Or(x / 2, y / 2)
  }

  /** The k low bits of v. */
  function BitsOf(v: nat, k: nat): (s: Bits)
    ensures |s| == k
    decreases k
  {
    if k == 0 then [] else [v % 2 == 1] + BitsOf(v / 2, k - 1)
  }

  /** The bits of a byte sequence. */
  function BytesBits(bytes: seq<Byte>): (s: Bits)
    ensures |s| == 8 * |bytes|
  {
    if bytes == [] then [] else BytesBits(bytes[..|bytes| - 1]) + BitsOf(bytes[|bytes| - 1], 8)
  }

  lemma {:induction false} LeOfBits(v: nat, k: nat)
    ensures Le(BitsOf(v, k)) == Low(v, k)
    decreases k
  {
    if k > 0 {
      assert BitsOf(v, k)[1..] == BitsOf(v / 2, k - 1);
      LeOfBits(v / 2, k - 1);
    }
  }

  lemma {:induction false} BitsSplit(v: nat, j: nat, k: nat)
    ensures BitsOf(v, j + k) == BitsOf(v, j) + BitsOf(Shr(v, j), k)
    decreases j
  {
    if j > 0 { BitsSplit(v / 2, j - 1, k); }
  }

  lemma {:induction false} BitsOfLow(v: nat, k: nat)
    ensures BitsOf(Low(v, k), k) == BitsOf(v, k)
    decreases k
  {
    if k > 0 { BitsOfLow(v / 2, k - 1); }
  }

  /** Disjoint parts: or-ing them is adding them. */
  lemma {:induction false} OrShl(x: nat, y: nat, k: nat)
    requires x < Pow2(k)
    ensures Or(x, Shl(y, k)) == x + Shl(y, k)
    decreases k
  {
    if k > 0 && x > 0 && Shl(y, k) > 0 {
      OrShl(x / 2, y, k - 1);
      assert Shl(y, k) / 2 == Shl(y, k - 1);
    }
  }

  lemma BitsJoin(x: nat, y: nat, j: nat, k: nat)
    requires x < Pow2(j)
    ensures BitsOf(x + Shl(y, j), j + k) == BitsOf(x, j) + BitsOf(y, k)
  {
    hide *;
    BitsSplit(x + Shl(y, j), j, k);
    JoinParts(y, x, j);
    BitsOfLow(x + Shl(y, j), j);
  }

  lemma BytesAppend(a: seq<Byte>, x: Byte)
    ensures BytesBits(a + [x]) == BytesBits(a) + BitsOf(x, 8)
  {
    assert (a + [x])[..|a|] == a;
  }
}

/** The output of the compressor: the bit buffer of zlib/trees.c (send_bits, bi_flush, bi_windup),
    and pending bytes on their way to the application (put_byte of zlib/deflate.h, flush_pending
    of zlib/deflate.c). */
module BitOutput {
  import opened Arith
  import opened BitStrings
  import opened BitStream
  import opened StringHash

  const Buf_size := 16

  class BitWriter {
    var pendingBuf: seq<Byte>
    var pendingOut: nat
    var biBuf: nat
    var biValid: nat
    var nextOut: seq<Byte>
    var availOut: nat

    /** The bytes of pendingBuf from pendingOut on have not been copied to nextOut yet. */
    ghost predicate Holding()
      reads this`pendingBuf, this`pendingOut, this`biBuf, this`biValid
    {
      biValid <= Buf_size && biBuf < Pow2(biValid) && (pendingOut == 0 || pendingOut < |pendingBuf|)
    }

    /** Bytes may be put: pending_out is at the start of pending_buf, so that the next byte goes
        behind the pending ones. */
    ghost predicate Valid()
      reads this`pendingBuf, this`pendingOut, this`biBuf, this`biValid
    {
      Holding() && pendingOut == 0
    }

    /** `pending`. */
    function Pending(): nat
      reads this`pendingBuf, this`pendingOut
      requires pendingOut <= |pendingBuf|
    {
      |pendingBuf| - pendingOut
    }

    /** All bytes put so far, delivered or pending. */
    ghost function Bytes(): seq<Byte>
      reads this`pendingBuf, this`pendingOut, this`nextOut
    {
      nextOut + if pendingOut <= |pendingBuf| then pendingBuf[pendingOut..] else []
    }

    /** All bits sent so far. */
    ghost function Sent(): (s: Bits)
      reads this`pendingBuf, this`pendingOut, this`nextOut, this`biBuf, this`biValid
    {
      BytesBits(Bytes()) + BitsOf(biBuf, biValid)
    }

    constructor ()
      ensures Valid() && Bytes() == [] && Sent() == [] && nextOut == [] && availOut == 0 && biValid == 0 &&
              pendingBuf == []
    {
      pendingBuf, pendingOut, biBuf, biValid, nextOut, availOut := [], 0, 0, 0, [], 0;
    }

    /** put_byte. */
    method PutByte(x: Byte)
      requires pendingOut == 0
      modifies this`pendingBuf
      ensures Bytes() == old(Bytes()) + [x] && BytesBits(Bytes()) == old(BytesBits(Bytes())) + BitsOf(x, 8)
      ensures Pending() == old(Pending()) + 1
    {
      hide BytesBits, BitsOf;
      BytesAppend(Bytes(), x);
      assert nextOut + (pendingBuf + [x]) == nextOut + pendingBuf + [x];
      assert pendingBuf[0..] == pendingBuf && (pendingBuf + [x])[0..] == pendingBuf + [x];
      pendingBuf := pendingBuf + [x];
    }

    /** flush_pending: as many pending bytes as there is room for. Nothing is lost or reordered,
        and with room left, nothing stays behind. */
    method FlushPending()
      requires Holding()
      modifies this`pendingBuf, this`pendingOut, this`nextOut, this`availOut
      ensures Holding() && Bytes() == old(Bytes()) && Sent() == old(Sent()) && old(nextOut) <= nextOut
      ensures |nextOut| + availOut == old(|nextOut| + availOut)
      ensures availOut > 0 <==> old(availOut) > old(Pending())
      ensures availOut > 0 ==> Valid() && nextOut == Bytes() && Pending() == 0
      ensures (nextOut != Bytes() ==> availOut == 0) && (Pending() == 0 ==> nextOut == Bytes())
    {
      hide BytesBits, BitsOf;
      assert nextOut + [] == nextOut;
      var len := |pendingBuf| - pendingOut;
      if len > availOut { len := availOut; }
      if len == 0 { return; }
      var out := pendingBuf[pendingOut..pendingOut + len];
      Moved(nextOut, pendingBuf, pendingOut, len);
      nextOut := nextOut + out;
      pendingOut := pendingOut + len;
      availOut := availOut - len;
      if pendingOut == |pendingBuf| {
        pendingBuf, pendingOut := [], 0;
      }
    }

    /** putShortMSB. */
    method PutShortMSB(b: nat)
      requires b < 0x10000 && pendingOut == 0
      modifies this`pendingBuf
      ensures Bytes() == old(Bytes()) + [b / 0x100, b % 0x100] && Pending() == old(Pending()) + 2
    {
      hide BytesBits, BitsOf, BitWriter.Bytes;
      PutByte(b / 0x100);
      PutByte(b % 0x100);
    }

    /** put_short. */
    method PutShort(w: nat)
      requires w < 0x10000 && pendingOut == 0
      modifies this`pendingBuf
      ensures Bytes() == old(Bytes()) + [w % 0x100, w / 0x100]
      ensures BytesBits(Bytes()) == old(BytesBits(Bytes())) + BitsOf(w, 16)
    {
      hide BytesBits, BitsOf, BitWriter.Bytes;
      ShortBits(w);
      Assoc(BytesBits(Bytes()), BitsOf(w % 0x100, 8), BitsOf(w / 0x100, 8));
      PutByte(w % 0x100);
      PutByte(w / 0x100);
    }

    /** send_bits: appends the low bits of value. */
    method SendBits(value: nat, length: nat)
      requires Valid() && length <= 16 && value < Pow2(length)
      modifies this`pendingBuf, this`biBuf, this`biValid
      ensures Valid() && Sent() == old(Sent()) + BitsOf(value, length)
    {
      hide BytesBits, BitsOf, BitWriter.Bytes, Shl, Shr, Low, Or, Pow2;
      if biValid > Buf_size - length {
        SplitSend(biBuf, biValid, value, length);
        ghost var out, rest := Low(Or(biBuf, Shl(value, biValid)), 16), Shr(value, Buf_size - biValid);
        Assoc(BytesBits(Bytes()), BitsOf(biBuf, biValid), BitsOf(value, length));
        Assoc(BytesBits(Bytes()), BitsOf(out, 16), BitsOf(rest, biValid + length - 16));
        biBuf := Low(Or(biBuf, Shl(value, biValid)), 16);
        PutShort(biBuf);
        biBuf := Shr(value, Buf_size - biValid);
        biValid := biValid + length - Buf_size;
      } else {
        WholeSend(biBuf, biValid, value, length);
        Assoc(BytesBits(Bytes()), BitsOf(biBuf, biValid), BitsOf(value, length));
        biBuf := Or(biBuf, Shl(value, biValid));
        biValid := biValid + length;
      }
    }

    /** bi_flush: whole bytes out of the buffer; what has been sent stays the same. */
    method BiFlush()
      requires Valid()
      modifies this`pendingBuf, this`biBuf, this`biValid
      ensures Valid() && biValid < 8 && Sent() == old(Sent())
    {
      hide BytesBits, BitsOf, BitWriter.Bytes, Shl, Shr, Low, Or, Pow2;
      Pow2Values();
      Pow2Mono(biValid, 16);
      if biValid == 16 {
        PutShort(biBuf);
        biBuf, biValid := 0, 0;
        NoBits(0);
      } else if biValid >= 8 {
        FlushByte(biBuf, biValid);
        PutByte(Low(biBuf, 8));
        biBuf, biValid := Shr(biBuf, 8), biValid - 8;
      }
    }

    /** bi_windup: up to the next byte boundary with zeros. */
    method BiWindup()
      requires Valid()
      modifies this`pendingBuf, this`biBuf, this`biValid
      ensures Valid() && biValid == 0 && Sent() == BytesBits(Bytes())
      ensures exists pad :: 0 <= pad < 8 && Sent() == old(Sent()) + BitsOf(0, pad)
    {
      hide BytesBits, BitsOf, BitWriter.Bytes, Shl, Shr, Low, Or;
      Pow2Values();
      ghost var pad := if biValid > 8 then 16 - biValid else if biValid > 0 then 8 - biValid else 0;
      PadBits(biBuf, biValid, pad);
      NoBits(0); NoBits(biBuf);
      Pow2Mono(biValid, biValid + pad);
      if biValid > 8 {
        PutShort(biBuf);
      } else if biValid > 0 {
        PutByte(biBuf);
      }
      biBuf, biValid := 0, 0;
    }
  }

  /** Bytes that move from the pending ones to the output stay in order. */
  lemma Moved(out: seq<Byte>, buf: seq<Byte>, from: nat, len: nat)
    requires from + len <= |buf|
    ensures out + buf[from..from + len] + buf[from + len..] == out + buf[from..]
  {
    assert buf[from..] == buf[from..from + len] + buf[from + len..];
  }

  lemma Assoc(a: Bits, b: Bits, c: Bits)
    ensures a + (b + c) == (a + b) + c
  {
  }

  lemma Pow2Values()
    ensures Pow2(8) == 0x100 && Pow2(16) == 0x10000 && Pow2(0) == 1
  {
  }

  lemma NoBits(v: nat)
    ensures BitsOf(v, 0) == []
  {
  }

  lemma ShortBits(w: nat)
    requires w < 0x10000
    ensures BitsOf(w, 16) == BitsOf(w % 0x100, 8) + BitsOf(w / 0x100, 8)
  {
    hide BitsOf, Low, Shr;
    BitsSplit(w, 8, 8);
    BitsOfLow(w, 8);
    LowIsRemainder(w, 8);
    Pow2Values();
    SplitAt(w, 8);
    ShlIsProduct(Shr(w, 8), 8);
  }

  /** The value fits behind the bits in the buffer. */
  lemma WholeSend(buf: nat, valid: nat, value: nat, length: nat)
    requires buf < Pow2(valid) && value < Pow2(length)
    ensures Or(buf, Shl(value, valid)) < Pow2(valid + length)
    ensures BitsOf(Or(buf, Shl(value, valid)), valid + length) == BitsOf(buf, valid) + BitsOf(value, length)
  {
    hide Or, Shl, BitsOf, Pow2;
    OrShl(buf, value, valid);
    BitsJoin(buf, value, valid, length);
    ShlBound(value, length, valid);
  }

  /** Sixteen bits go out, the rest of the value stays. */
  lemma SplitSend(buf: nat, valid: nat, value: nat, length: nat)
    requires buf < Pow2(valid) && value < Pow2(length) && length <= 16 && valid <= 16 < valid + length
    ensures var out, rest := Low(Or(buf, Shl(value, valid)), 16), Shr(value, 16 - valid);
            && out < 0x10000 && rest < Pow2(valid + length - 16)
            && BitsOf(out, 16) + BitsOf(rest, valid + length - 16) == BitsOf(buf, valid) + BitsOf(value, length)
  {
    hide Or, Shl, Shr, Low, BitsOf, Pow2;
    var d := 16 - valid;
    Pow2Values();
    OrShl(buf, value, valid);
    BitsOfLow(Or(buf, Shl(value, valid)), 16);
    BitsJoin(buf, value, valid, d);
    BitsSplit(value, d, length - d);
    ShrBound(value, length - d, d);
  }

  lemma FlushByte(buf: nat, valid: nat)
    requires buf < Pow2(valid) && valid >= 8
    ensures Low(buf, 8) < 256 && Shr(buf, 8) < Pow2(valid - 8)
    ensures BitsOf(buf, valid) == BitsOf(Low(buf, 8), 8) + BitsOf(Shr(buf, 8), valid - 8)
  {
    hide BitsOf, Shr, Low, Pow2;
    BitsSplit(buf, 8, valid - 8);
    BitsOfLow(buf, 8);
    ShrBound(buf, valid - 8, 8);
    Pow2Values();
  }

  lemma PadBits(buf: nat, valid: nat, pad: nat)
    requires buf < Pow2(valid)
    ensures BitsOf(buf, valid + pad) == BitsOf(buf, valid) + BitsOf(0, pad)
  {
    hide BitsOf, Shl, Pow2;
    BitsJoin(buf, 0, valid, pad);
    ShlZero(valid);
  }
}
