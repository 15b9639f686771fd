/** The rolling three-byte hash of the compressor (`UPDATE_HASH` in zlib/deflate.c). */
module StringHash {
  import opened Arith

  type Byte = b: int | 0 <= b < 256

  /** hash_bits and hash_shift as deflateInit2_ derives them from memLevel. */
  datatype Params = Params(bits: nat, shift: nat) {
    ghost predicate Valid() {
      && 8 <= bits <= 16
      && shift == (bits + 2) / 3
    }

    /** hash_size; hash_mask is one less, so masking is a remainder. */
    function Size(): nat { Pow2(bits) }

    /** UPDATE_HASH: `((h << hash_shift) ^ c) & hash_mask`. */
    function Update(h: nat, c: Byte): (r: nat)
      ensures r < Size()
    {
      Low(Xor(Shl(h, shift), c), bits)
    }

    /** The hash of a three-byte string, computed from scratch. */
    function Key(b0: Byte, b1: Byte, b2: Byte): nat {
      Update(Update(Update(0, b0), b1), b2)
    }

    /** The running value `h` has seen b0 and b1 last: what a third byte will be mixed
        with is the same as if they had been hashed from scratch. */
    ghost predicate Primed(h: nat, b0: Byte, b1: Byte) {
      Low(Shl(h, shift), bits) == Low(Shl(Update(Update(0, b0), b1), shift), bits)
    }
  }

  lemma PrimedGivesKey(p: Params, h: nat, b0: Byte, b1: Byte, c: Byte)
    requires p.Valid() && p.Primed(h, b0, b1)
    ensures p.Update(h, c) == p.Key(b0, b1, c)
  {
    XorLow(Shl(h, p.shift), c, p.bits);
    XorLow(Shl(p.Update(p.Update(0, b0), b1), p.shift), c, p.bits);
  }

  lemma ByteBelowSize(p: Params, b: Byte)
    requires p.Valid()
    ensures Low(b, p.bits) == b
  {
    Pow2Mono(8, p.bits);
    assert Pow2(8) == 256;
    LowBelow(b, p.bits);
  }

  /** The mask may be applied before the next shift or only at the end. */
  lemma DeferMask(p: Params, x: nat, c: Byte)
    requires p.Valid()
    ensures p.Update(Low(x, p.bits), c) == p.Update(x, c)
  {
    LowShlLow(x, p.bits, p.shift, p.bits);
    XorLow(Shl(Low(x, p.bits), p.shift), c, p.bits);
    XorLow(Shl(x, p.shift), c, p.bits);
  }

  /** The unmasked hash of a history h and three bytes. */
  ghost function Raw(s: nat, h: nat, b0: Byte, b1: Byte, b2: Byte): nat {
    Xor(Shl(Xor(Shl(Xor(Shl(h, s), b0), s), b1), s), b2)
  }

  lemma UpdateThrice(p: Params, h: nat, b0: Byte, b1: Byte, b2: Byte)
    requires p.Valid()
    ensures p.Update(p.Update(p.Update(h, b0), b1), b2) == Low(Raw(p.shift, h, b0, b1, b2), p.bits)
  {
    var x := Xor(Shl(h, p.shift), b0);
    DeferMask(p, x, b1);
    DeferMask(p, Xor(Shl(x, p.shift), b1), b2);
  }

  lemma RawSplits(s: nat, h: nat, b0: Byte, b1: Byte, b2: Byte)
    ensures Raw(s, h, b0, b1, b2) == Xor(Shl(h, 3 * s), Raw(s, 0, b0, b1, b2))
  {
    XorShl(Shl(h, s), b0, s);
    ShlShl(h, s, s);
    XorAssoc(Shl(h, 2 * s), Shl(b0, s), b1);
    var y := Xor(Shl(b0, s), b1);
    XorShl(Shl(h, 2 * s), y, s);
    ShlShl(h, 2 * s, s);
    XorAssoc(Shl(h, 3 * s), Shl(y, s), b2);
    ShlZero(s);
  }


  /** hash_shift * 3 >= hash_bits: after three steps the history has left the key. */
  lemma HistoryLeaves(p: Params, h: nat, b0: Byte, b1: Byte, b2: Byte)
    requires p.Valid()
    ensures p.Update(p.Update(p.Update(h, b0), b1), b2) == p.Key(b0, b1, b2)
  {
    UpdateThrice(p, h, b0, b1, b2);
    UpdateThrice(p, 0, b0, b1, b2);
    RawSplits(p.shift, h, b0, b1, b2);
    LowShlZero(h, 3 * p.shift, p.bits);
    XorLow(Shl(h, 3 * p.shift), Raw(p.shift, 0, b0, b1, b2), p.bits);
  }

  /** fill_window: a byte and one UPDATE_HASH prime the running hash. */
  lemma FreshIsPrimed(p: Params, b0: Byte, b1: Byte)
    requires p.Valid()
    ensures p.Primed(p.Update(b0, b1), b0, b1)
  {
    ByteBelowSize(p, b0);
    ShlZero(p.shift);
    assert p.Update(0, b0) == b0;
  }

  /** INSERT_STRING at consecutive positions: the key of one string primes the next. */
  lemma KeyPrimesNext(p: Params, b0: Byte, b1: Byte, b2: Byte)
    requires p.Valid()
    ensures p.Primed(p.Key(b0, b1, b2), b1, b2)
  {
    var h, s := p.Update(0, b0), p.shift;
    HistoryLeaves(p, h, b1, b2, 0);
    XorLow(Shl(p.Key(b0, b1, b2), s), 0, p.bits);
    XorLow(Shl(p.Update(p.Update(0, b1), b2), s), 0, p.bits);
  }

  /** Two strings with equal keys and equal first two bytes agree on the third: the
      reason longest_match never compares that byte. */
  lemma ThirdByte(p: Params, b0: Byte, b1: Byte, b2: Byte, c2: Byte)
    requires p.Valid()
    requires p.Key(b0, b1, b2) == p.Key(b0, b1, c2)
    ensures b2 == c2
  {
    var x := Shl(p.Update(p.Update(0, b0), b1), p.shift);
    XorLow(x, b2, p.bits); XorLow(x, c2, p.bits);
    ByteBelowSize(p, b2); ByteBelowSize(p, c2);
    XorCancel(Low(x, p.bits), b2, c2);
  }

  /** The keys of all three-byte strings of a text, in order. */
  ghost function KeysOf(p: Params, text: seq<Byte>): (ks: seq<nat>)
    ensures |ks| == if |text| < 3 then 0 else |text| - 2
  {
    var n := |text|;
    if n < 3 then [] else KeysOf(p, text[..n - 1]) + [p.Key(text[n - 3], text[n - 2], text[n - 1])]
  }

  lemma {:induction false} KeyOfPosition(p: Params, text: seq<Byte>, q: nat)
    requires q + 3 <= |text|
    ensures KeysOf(p, text)[q] == p.Key(text[q], text[q + 1], text[q + 2])
  {
    if q + 3 < |text| { KeyOfPosition(p, text[..|text| - 1], q); }
  }

  lemma {:induction false} KeysOfPrefix(p: Params, text: seq<Byte>, more: seq<Byte>)
    ensures KeysOf(p, text) <= KeysOf(p, text + more)
    decreases |more|
  {
    if more == [] {
      assert text + more == text;
    } else {
      var shorter := more[..|more| - 1];
      assert (text + more)[..|text + more| - 1] == text + shorter;
      KeysOfPrefix(p, text, shorter);
    }
  }

  lemma ThirdByteAt(p: Params, text: seq<Byte>, a: nat, b: nat)
    requires p.Valid() && a + 3 <= |text| && b + 3 <= |text|
    requires KeysOf(p, text)[a] == KeysOf(p, text)[b]
    requires text[a] == text[b] && text[a + 1] == text[b + 1]
    ensures text[a + 2] == text[b + 2]
  {
    KeyOfPosition(p, text, a); KeyOfPosition(p, text, b);
    ThirdByte(p, text[a], text[a + 1], text[a + 2], text[b + 2]);
  }

  /** The running hash h is ready for the third byte of the string at position q. */
  ghost predicate ReadyAt(p: Params, h: nat, text: seq<Byte>, q: nat) {
    q + 2 <= |text| && p.Primed(h, text[q], text[q + 1])
  }

  /** UPDATE_HASH with the third byte of the string at position q. */
  method UpdateHash(p: Params, h: nat, c: Byte, ghost text: seq<Byte>, ghost q: nat) returns (r: nat)
    requires p.Valid() && q + 3 <= |text| && c == text[q + 2] && ReadyAt(p, h, text, q)
    ensures r < p.Size() && r == KeysOf(p, text)[q] && ReadyAt(p, r, text, q + 1)
  {
    r := p.Update(h, c);
    PrimedGivesKey(p, h, text[q], text[q + 1], c);
    KeyOfPosition(p, text, q);
    KeyPrimesNext(p, text[q], text[q + 1], text[q + 2]);
  }

  /** The hash of two bytes, computed afresh; it is of use if they start the string at q. */
  method FreshHash(p: Params, b0: Byte, b1: Byte, ghost text: seq<Byte>, ghost q: nat) returns (r: nat)
    requires p.Valid()
    ensures q + 2 <= |text| && b0 == text[q] && b1 == text[q + 1] ==> ReadyAt(p, r, text, q)
  {
    r := p.Update(b0, b1);
    FreshIsPrimed(p, b0, b1);
  }
}
