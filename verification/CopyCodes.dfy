/** Lengths and distances as codes with extra bits, and the lengths of the fixed codes (sections
    3.2.5 and 3.2.6 of RFC 1951), as zlib/inftrees.c has them. */
module CopyCodes {
  import opened Arith

  /** Copy lengths and distances: the base of every code and its number of extra bits. */
  const cplens: seq<nat> := [
    3, 4, 5, 6, 7, 8, 9, 10, 11, 13, 15, 17, 19, 23, 27, 31,
    35, 43, 51, 59, 67, 83, 99, 115, 131, 163, 195, 227, 258, 0, 0]
  const cplext: seq<nat> := [
    0, 0, 0, 0, 0, 0, 0, 0, 1, 1, 1, 1, 2, 2, 2, 2,
    3, 3, 3, 3, 4, 4, 4, 4, 5, 5, 5, 5, 0, 112, 112]
  const cpdist: seq<nat> := [
    1, 2, 3, 4, 5, 7, 9, 13, 17, 25, 33, 49, 65, 97, 129, 193,
    257, 385, 513, 769, 1025, 1537, 2049, 3073, 4097, 6145,
    8193, 12289, 16385, 24577]
  const cpdext: seq<nat> := [
    0, 0, 0, 0, 1, 1, 2, 2, 3, 3, 4, 4, 5, 5, 6, 6,
    7, 7, 8, 8, 9, 9, 10, 10, 11, 11,
    12, 12, 13, 13]

  const BITS_LENGTHS := 19
  const LITERALS := 257
  const MAX_LITERAL_CODES := 288
  const MAX_DISTANCE_CODES := 30

  lemma LengthEntry(j: nat)
    requires j < 31
    ensures cplext[j] == 112 || (cplext[j] <= 5 && 3 <= cplens[j] && cplens[j] + Pow2(cplext[j]) <= 259)
  {
  }

  lemma DistanceEntry(j: nat)
    requires j < 30
    ensures cpdext[j] <= 15 && cpdist[j] >= 1
  {
  }

  /** The lengths of the static trees; the last two literal codes never occur. */
  function StaticLength(n: nat): nat { if n <= 143 then 8 else if n <= 255 then 9 else if n <= 279 then 7 else 8 }

  function StaticL(): (b: seq<nat>)
    ensures |b| == 288 && forall n :: 0 <= n < 288 ==> b[n] == StaticLength(n)
  {
    seq(288, (n: nat) => StaticLength(n))
  }

  function StaticD(): (b: seq<nat>)
    ensures |b| == 30 && forall n :: 0 <= n < 30 ==> b[n] == 5
  {
    seq(30, (n: nat) => 5)
  }
}
