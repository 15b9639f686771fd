/** Lengths and distances as codes with extra bits (section 3.2.5 of RFC 1951): the tables that
    tr_static_init in zlib/trees.c builds, against those of zlib/inftrees.c. */
module Alphabet {
  import opened Arith
  import opened CopyCodes

  const LENGTH_CODES := 29
  const D_CODES := 30

  const extra_lbits: seq<nat> := [0, 0, 0, 0, 0, 0, 0, 0, 1, 1, 1, 1, 2, 2, 2, 2, 3, 3, 3, 3, 4, 4, 4, 4, 5, 5, 5, 5, 0]
  const extra_dbits: seq<nat> :=
      [0, 0, 0, 0, 1, 1, 2, 2, 3, 3, 4, 4, 5, 5, 6, 6, 7, 7, 8, 8, 9, 9, 10, 10, 11, 11, 12, 12, 13, 13]

  /** _length_code, base_length, _dist_code and base_dist. */
  datatype CodeTables = CodeTables(lengthCode: seq<nat>, baseLength: seq<nat>, distCode: seq<nat>, baseDist: seq<nat>) {

    /** d_code. */
    function DCode(dist: nat): nat
      requires dist < 0x8000 && |distCode| == 512
    {
      if dist < 256 then distCode[dist] else distCode[256 + dist / 128]
    }

    /** Match length l + 3 is code LengthCode with l - baseLength in its extra bits; 258 has a
        code of its own. */
    ghost predicate LengthOk(l: nat)
      requires l < 256 && |lengthCode| == 256 && |baseLength| == LENGTH_CODES
    {
      var c := lengthCode[l];
      if l == 255 then c == 28 else c < 28 && baseLength[c] <= l < baseLength[c] + Pow2(extra_lbits[c])
    }

    ghost predicate DistOk(d: nat)
      requires d < 0x8000 && |distCode| == 512 && |baseDist| == D_CODES
    {
      var c := DCode(d); c < D_CODES && baseDist[c] <= d < baseDist[c] + Pow2(extra_dbits[c])
    }

    /** The tables agree with each other and with those of the decoder. */
    ghost predicate Ok() {
      && |lengthCode| == 256 && |baseLength| == LENGTH_CODES && |distCode| == 512 && |baseDist| == D_CODES
      && (forall c :: 0 <= c < 28 ==> baseLength[c] + 3 == cplens[c])
      && (forall c :: 0 <= c < D_CODES ==> baseDist[c] + 1 == cpdist[c])
      && (forall l :: 0 <= l < 256 ==> LengthOk(l))
      && (forall d {:trigger DistOk(d)} :: 0 <= d < 0x8000 ==> DistOk(d))
    }
  }

  lemma SameExtra(c: nat)
    ensures c < LENGTH_CODES ==> extra_lbits[c] == cplext[c] <= 5
    ensures c < D_CODES ==>
              extra_dbits[c] == cpdext[c] <= 13 && (c < 16 ==> cpdext[c] <= 7) && (c >= 16 ==> cpdext[c] >= 7)
  {
  }

  lemma Powers()
    ensures Pow2(0) == 1 && Pow2(1) == 2 && Pow2(2) == 4 && Pow2(3) == 8 && Pow2(4) == 16 && Pow2(5) == 32 &&
            Pow2(6) == 64
    ensures Pow2(7) == 128 && Pow2(8) == 256 && Pow2(9) == 512 && Pow2(10) == 1024 && Pow2(11) == 2048 &&
            Pow2(12) == 4096
    ensures Pow2(13) == 8192
  {
  }

  lemma NextLength(c: nat)
    requires c < 28
    ensures 3 <= cplens[c] && cplens[c] + Pow2(extra_lbits[c]) == if c < 27 then cplens[c + 1] else 259
    ensures cplens[c] + Pow2(extra_lbits[c]) <= 259
  {
    hide Pow2;
    Powers();
  }

  lemma NextDistance(c: nat)
    requires c < D_CODES
    ensures 1 <= cpdist[c] && cpdist[c] + Pow2(extra_dbits[c]) == if c < 29 then cpdist[c + 1] else 32769
    ensures c < 16 ==> cpdist[c] + Pow2(extra_dbits[c]) <= 257
    ensures cpdist[c] + Pow2(extra_dbits[c]) <= 32769
  {
    hide Pow2;
    Powers();
  }

  /** The codes up to length l have been entered: base is the first length of code c. */
  ghost predicate LengthsTo(lengthCode: seq<nat>, baseLength: seq<nat>, codes: nat, l: nat) {
    && |lengthCode| == 256 && |baseLength| == LENGTH_CODES && codes <= 28 && l <= 256
    && (forall c :: 0 <= c < codes ==> baseLength[c] + 3 == cplens[c])
    && (forall i :: 0 <= i < l ==>
          lengthCode[i] < codes &&
          baseLength[lengthCode[i]] <= i < baseLength[lengthCode[i]] + Pow2(extra_lbits[lengthCode[i]]))
  }

  /** tr_static_init: the mapping from lengths to length codes. */
  method InitLengths() returns (lengthCode: seq<nat>, baseLength: seq<nat>)
    ensures |lengthCode| == 256 && |baseLength| == LENGTH_CODES &&
            (forall c :: 0 <= c < 28 ==> baseLength[c] + 3 == cplens[c])
    ensures forall l :: 0 <= l < 256 ==> CodeTables(lengthCode, baseLength, [], []).LengthOk(l)
  {
    hide Pow2, cplens, extra_lbits;
    lengthCode, baseLength := seq(256, _ => 0), seq(LENGTH_CODES, _ => 0);
    var length, code := 0, 0;
    FirstBases();
    while code < LENGTH_CODES - 1
      invariant 0 <= code <= 28 && LengthsTo(lengthCode, baseLength, code, length)
      invariant length + 3 == if code < 28 then cplens[code] else 259
    {
      NextLength(code);
      SameExtra(code);
      baseLength := baseLength[code := length];
      var n := 0;
      while n < Pow2(extra_lbits[code])
        invariant 0 <= n <= Pow2(extra_lbits[code]) && length == baseLength[code] + n &&
                  baseLength[code] + 3 == cplens[code]
        invariant LengthsTo(lengthCode, baseLength, code + 1, length)
      {
        lengthCode := lengthCode[length := code];
        length, n := length + 1, n + 1;
      }
      code := code + 1;
    }
    lengthCode := lengthCode[length - 1 := code];
  }

  lemma FirstBases()
    ensures |cplens| == |cplext| == 31 && |extra_lbits| == LENGTH_CODES && cplens[0] == 3
    ensures |cpdist| == |cpdext| == D_CODES == |extra_dbits| && cpdist[0] == 1 && cpdist[16] == 257
  {
  }

  /** tr_static_init: the mapping from distances to distance codes. */
  ghost predicate DistsTo(distCode: seq<nat>, baseDist: seq<nat>, codes: nat, d: nat) {
    && |distCode| == 512 && |baseDist| == D_CODES && codes <= D_CODES
    && (forall c :: 0 <= c < codes ==> baseDist[c] + 1 == cpdist[c])
    && (forall i :: 0 <= i < d && i < 256 ==>
          distCode[i] < codes && baseDist[distCode[i]] <= i < baseDist[distCode[i]] + Pow2(extra_dbits[distCode[i]]))
  }

  /** The distances from 256 on, in units of 128. */
  ghost predicate FarTo(distCode: seq<nat>, baseDist: seq<nat>, codes: nat, j: nat)
    requires |distCode| == 512 && |baseDist| == D_CODES
  {
    forall i :: 258 <= i < 256 + j && i < 512 ==>
      && distCode[i] < codes && distCode[i] < D_CODES
      && baseDist[distCode[i]] <= 128 * (i - 256) &&
         128 * (i - 255) <= baseDist[distCode[i]] + Pow2(extra_dbits[distCode[i]])
  }

  method InitNear() returns (distCode: seq<nat>, baseDist: seq<nat>)
    ensures DistsTo(distCode, baseDist, 16, 256)
  {
    hide Pow2, cpdist, extra_dbits;
    distCode, baseDist := seq(512, _ => 0), seq(D_CODES, _ => 0);
    var dist, code := 0, 0;
    FirstBases();
    while code < 16
      invariant 0 <= code <= 16 && DistsTo(distCode, baseDist, code, dist) && dist + 1 == cpdist[code]
    {
      NextDistance(code);
      SameExtra(code);
      baseDist := baseDist[code := dist];
      var n := 0;
      while n < Pow2(extra_dbits[code])
        invariant 0 <= n <= Pow2(extra_dbits[code]) && dist == baseDist[code] + n && baseDist[code] + 1 == cpdist[code]
        invariant DistsTo(distCode, baseDist, code + 1, dist)
      {
        distCode := distCode[dist := code];
        dist, n := dist + 1, n + 1;
      }
      code := code + 1;
    }
  }

  method InitFar(distCode0: seq<nat>, baseDist0: seq<nat>) returns (distCode: seq<nat>, baseDist: seq<nat>)
    requires DistsTo(distCode0, baseDist0, 16, 256)
    ensures DistsTo(distCode, baseDist, D_CODES, 256) && FarTo(distCode, baseDist, D_CODES, 256)
  {
    hide Pow2, cpdist, extra_dbits;
    distCode, baseDist := distCode0, baseDist0;
    var dist, code := 2, 16;
    FirstBases();
    while code < D_CODES
      invariant 16 <= code <= D_CODES && DistsTo(distCode, baseDist, code, 256) && FarTo(distCode, baseDist, code, dist)
      invariant 128 * dist + 1 == if code < D_CODES then cpdist[code] else 32769
    {
      NextDistance(code);
      SameExtra(code);
      ShiftedSeven(extra_dbits[code]);
      var count := Pow2(extra_dbits[code] - 7);
      baseDist := baseDist[code := 128 * dist];
      var n := 0;
      while n < count
        invariant 0 <= n <= count && 128 * dist == baseDist[code] + 128 * n && baseDist[code] + 1 == cpdist[code]
        invariant DistsTo(distCode, baseDist, code + 1, 256) && FarTo(distCode, baseDist, code + 1, dist)
      {
        distCode := distCode[256 + dist := code];
        dist, n := dist + 1, n + 1;
      }
      code := code + 1;
    }
  }

  lemma ShiftedSeven(x: nat)
    requires 7 <= x
    ensures Pow2(x) == 128 * Pow2(x - 7)
  {
    Pow2Add(x - 7, 7);
    assert Pow2(7) == 128;
  }

  /** tr_static_init: the tables for lengths and distances. */
  method TrStaticInit() returns (t: CodeTables)
    ensures t.Ok()
  {
    hide Pow2, cpdist, cplens, extra_dbits, extra_lbits;
    var lengthCode, baseLength := InitLengths();
    var distCode, baseDist := InitNear();
    distCode, baseDist := InitFar(distCode, baseDist);
    t := CodeTables(lengthCode, baseLength, distCode, baseDist);
    forall d {:trigger t.DistOk(d)} | 0 <= d < 0x8000 ensures t.DistOk(d) {
      NearOrFar(t, d);
    }
    forall l | 0 <= l < 256 ensures t.LengthOk(l) { assert CodeTables(lengthCode, baseLength, [], []).LengthOk(l); }
  }

  lemma NearOrFar(t: CodeTables, d: nat)
    requires d < 0x8000 && DistsTo(t.distCode, t.baseDist, D_CODES, 256) && FarTo(t.distCode, t.baseDist, D_CODES, 256)
    ensures t.DistOk(d)
  {
    hide Pow2;
    if d >= 256 {
      var j := d / 128;
      assert 128 * j <= d < 128 * (j + 1);
      assert t.distCode[256 + j] == t.DCode(d);
    }
  }
}
