/** The circular window of inflate (zlib/infutil.c, zlib/infutil.h). */
module CircularWindow {
  import opened StringHash
  import opened Chains
  import opened BlockFields

  /** The window holds the last w bytes of the text, each at its position modulo w. The first
      n bytes of the text behind base are delivered; the rest, at most w bytes, lies between
      read and write, which may be at the end of the window. */
  ghost predicate WindowOk(win: seq<Byte>, w: nat, text: seq<Byte>, base: nat, n: nat, read: nat, write: nat) {
    && |win| == w > 0 && w <= base && base + n <= |text| <= base + n + w
    && read < w && write <= w
    && Slot(base + n, w) == read && Slot(|text|, w) == (if write == w then 0 else write)
    && |text| - (base + n) == (if read <= write then write - read else w - read + write)
    && Current(win, w, text)
  }

  ghost predicate Current(win: seq<Byte>, w: nat, text: seq<Byte>)
    requires |win| == w > 0
  {
    forall p {:trigger Slot(p, w)} :: 0 <= p < |text| && |text| - w <= p ==> win[Slot(p, w)] == text[p]
  }

  /** WAVAIL: the bytes that can be written at write without a wrap. */
  function WAvail(w: nat, read: nat, write: nat): (m: nat)
    requires read < w && write <= w
  {
    if write < read then read - write - 1 else w - write
  }

  lemma {:induction false} SlotNext(p: nat, w: nat)
    requires w > 0
    ensures Slot(p + 1, w) == if Slot(p, w) + 1 == w then 0 else Slot(p, w) + 1
  {
    if p >= w { SlotNext(p - w, w); }
  }

  lemma {:induction false} SlotAhead(p: nat, w: nat, i: nat)
    requires w > 0 && Slot(p, w) + i < w
    ensures Slot(p + i, w) == Slot(p, w) + i
    decreases i
  {
    if i > 0 { SlotAhead(p, w, i - 1); SlotNext(p + i - 1, w); }
  }

  /** OUTBYTE: no byte that is still to be read is overwritten, and none of the last w. */
  lemma PutByte(win: seq<Byte>, w: nat, text: seq<Byte>, base: nat, n: nat, read: nat, write: nat, x: Byte)
    requires WindowOk(win, w, text, base, n, read, write) && WAvail(w, read, write) > 0
    ensures WindowOk(win[write := x], w, text + [x], base, n, read, write + 1)
  {
    hide Slot;
    var win', text' := win[write := x], text + [x];
    SlotNext(|text|, w);
    forall p {:trigger Slot(p, w)} | 0 <= p < |text'| && |text'| - w <= p ensures win'[Slot(p, w)] == text'[p] {
      if p < |text| { SlotsDiffer(p, |text|, w); }
    }
  }

  /** WRAP: from the end to the beginning of the window. */
  lemma Wrapped(win: seq<Byte>, w: nat, text: seq<Byte>, base: nat, n: nat, read: nat)
    requires WindowOk(win, w, text, base, n, read, w) && read != 0
    ensures WindowOk(win, w, text, base, n, read, 0)
  {
    hide Slot;
  }

  /** Delivering i bytes from read on, short of the end of what has been written. */
  lemma Delivered(win: seq<Byte>, w: nat, text: seq<Byte>, base: nat, n: nat, read: nat, write: nat, i: nat)
    requires WindowOk(win, w, text, base, n, read, write) && read + i <= (if read <= write then write else w)
    ensures base + n + i <= |text| && win[read..read + i] == text[base + n..base + n + i]
    ensures read + i < w ==> WindowOk(win, w, text, base, n + i, read + i, write)
    ensures read + i == w ==> WindowOk(win, w, text, base, n + i, 0, if write == w then 0 else write)
  {
    hide Slot;
    var out := win[read..read + i];
    forall j | 0 <= j < i ensures out[j] == text[base + n + j] { SlotAhead(base + n, w, j); }
    if i > 0 {
      SlotAhead(base + n, w, i - 1);
      SlotNext(base + n + i - 1, w);
    }
  }

  /** The byte at a distance, modulo the window size. */
  lemma ByteBack(win: seq<Byte>, w: nat, text: seq<Byte>, base: nat, n: nat, read: nat, write: nat, dist: nat)
    requires WindowOk(win, w, text, base, n, read, write)
    ensures var p := |text| - Back(dist, w); 0 <= p < |text| && win[Slot(p, w)] == text[p]
  {
    hide Slot, Back;
  }

  /** `while (f < window) f += size`. */
  function Source(f: int, w: nat): (r: nat)
    requires w > 0
    decreases if f < 0 then 0 - f else 0
  {
    if f >= 0 then f else Source(f + w, w)
  }

  lemma {:induction false} SlotBack(t: nat, d: nat, w: nat)
    requires w > 0 && d <= Slot(t, w)
    ensures d <= t && Slot(t - d, w) == Slot(t, w) - d && Slot(t, w) <= t
  {
    if t >= w { SlotBack(t - w, d, w); }
  }

  lemma {:induction false} SlotBefore(t: nat, d: nat, w: nat)
    requires w > 0 && t >= w && Slot(t, w) < d <= w
    ensures Slot(t - d, w) == Slot(t, w) - d + w
  {
    var s := Slot(t, w);
    SlotBack(t, s, w);
    if t - s >= w {
      SlotShifted(t - s - w, w - (d - s), w);
    }
  }

  /** The slot at a distance, modulo the window size. */
  lemma {:induction false} SourceIs(t: nat, write: nat, dist: nat, w: nat)
    requires w > 0 && t >= w && write <= w && dist >= 1 && Slot(t, w) == (if write == w then 0 else write)
    ensures Source(write - dist, w) == Slot(t - Back(dist, w), w)
    decreases dist
  {
    if dist > w {
      SourceIs(t, write, dist - w, w);
    } else if write == w || write < dist {
      SlotBefore(t, dist, w);
    } else {
      SlotBack(t, dist, w);
    }
  }

  lemma WindowBounds(win: seq<Byte>, w: nat, text: seq<Byte>, base: nat, n: nat, read: nat, write: nat)
    requires WindowOk(win, w, text, base, n, read, write)
    ensures |win| == w > 0 && w <= base && base + n <= |text| && read < w && write <= w
    ensures |text| == base + n <==> read == write
  {
  }
}
