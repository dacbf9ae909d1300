/**
 The packed bitmaps of spreadsketch.cpp.  Bucket regions start at arbitrary bit
 offsets, so the copy, AND and OR loops work on bytes that straddle two
 regions; each is proved equal to its bit-by-bit meaning.
 */
module Bitmap {
  import opened Bits

  // ---- the byte expressions of the loops, each with its meaning on bits ----

  /** src & (0xff >> pos) */
  method From(src: bv8, pos: nat) returns (r: bv8)
    requires pos < 8
    ensures forall p :: 0 <= p < 8 ==> (Bit(r, p) <==> pos <= p && Bit(src, p))
  {
    r := src & (0xff >> pos);
    forall p | 0 <= p < 8
      ensures Bit(r, p) <==> pos <= p && Bit(src, p)
    {
      BitAnd(src, 0xff >> pos, p);
      BitMasks(pos, p);
    }
  }

  /** temp <<= k */
  method ShiftLeft(temp: bv8, k: nat) returns (r: bv8)
    requires k < 8
    ensures forall p :: 0 <= p < 8 ==> (Bit(r, p) <==> p + k < 8 && Bit(temp, p + k))
  {
    r := temp << k;
    forall p | 0 <= p < 8
      ensures Bit(r, p) <==> p + k < 8 && Bit(temp, p + k)
    {
      BitShl(temp, k, p);
    }
  }

  /** temp >>= k */
  method ShiftRight(temp: bv8, k: nat) returns (r: bv8)
    requires k < 8
    ensures forall p :: 0 <= p < 8 ==> (Bit(r, p) <==> p >= k && Bit(temp, p - k))
  {
    r := temp >> k;
    forall p | 0 <= p < 8
      ensures Bit(r, p) <==> p >= k && Bit(temp, p - k)
    {
      BitShr(temp, k, p);
    }
  }

  /** temp |= (1 << k) - 1 */
  method FillLow(temp: bv8, k: nat) returns (r: bv8)
    requires k < 8
    ensures forall p :: 0 <= p < 8 ==> (Bit(r, p) <==> Bit(temp, p) || p >= 8 - k)
  {
    r := temp | ((1 << k) - 1);
    forall p | 0 <= p < 8
      ensures Bit(r, p) <==> Bit(temp, p) || p >= 8 - k
    {
      BitOr(temp, (1 << k) - 1, p);
      BitMasks(k, p);
    }
  }

  /** temp |= 256 - (1 << (8 - k)) */
  method FillHigh(temp: bv8, k: nat) returns (r: bv8)
    requires k < 8
    ensures forall p :: 0 <= p < 8 ==> (Bit(r, p) <==> Bit(temp, p) || p < k)
  {
    r := temp | HighBits(k);
    forall p | 0 <= p < 8
      ensures Bit(r, p) <==> Bit(temp, p) || p < k
    {
      BitOr(temp, HighBits(k), p);
      BitHighBits(k, p);
    }
  }

  method Or(a: bv8, b: bv8) returns (r: bv8)
    ensures forall p :: 0 <= p < 8 ==> (Bit(r, p) <==> Bit(a, p) || Bit(b, p))
  {
    r := a | b;
    forall p | 0 <= p < 8
      ensures Bit(r, p) <==> Bit(a, p) || Bit(b, p)
    {
      BitOr(a, b, p);
    }
  }

  method And(a: bv8, b: bv8) returns (r: bv8)
    ensures forall p :: 0 <= p < 8 ==> (Bit(r, p) <==> Bit(a, p) && Bit(b, p))
  {
    r := a & b;
    forall p | 0 <= p < 8
      ensures Bit(r, p) <==> Bit(a, p) && Bit(b, p)
    {
      BitAnd(a, b, p);
    }
  }

  // ---- one step of each loop ----

  /** How far a step gets, and where it finds the source of a bit of its destination byte. */
  lemma SameByte(start: nat, curlen: nat, t: nat)
    requires t / 8 == curlen / 8
    ensures
      var pos, pos2 := (start + curlen) % 8, curlen % 8;
      var step := if 8 - pos2 > 8 - pos then 8 - pos else 8 - pos2;
      && (curlen <= t < curlen + step <==> pos2 <= t % 8 && t % 8 + pos - pos2 < 8)
      && (curlen <= t < curlen + step ==>
            (start + t) / 8 == (start + curlen) / 8 && (start + t) % 8 == t % 8 + pos - pos2)
  {
  }

  /** A step stays inside both buffers and ends on a byte boundary of one of them. */
  lemma StepFits(start: nat, curlen: nat, len: nat, dstBytes: nat, srcBytes: nat)
    requires curlen < len <= 8 * dstBytes && start + len <= 8 * srcBytes
    ensures
      var pos, pos2 := (start + curlen) % 8, curlen % 8;
      var step := if 8 - pos2 > 8 - pos then 8 - pos else 8 - pos2;
      && curlen / 8 < dstBytes && (start + curlen) / 8 < srcBytes
      && curlen + step <= 8 * dstBytes && start + curlen + step <= 8 * srcBytes
      && ((start + curlen + step) % 8 == 0 || (curlen + step) % 8 == 0)
  {
  }

  /** Copybmp: the bits of src from pos on land at pos2 of the destination byte. */
  method OrInto(was: bv8, src: bv8, pos: nat, pos2: nat) returns (r: bv8)
    requires pos < 8 && pos2 < 8
    ensures forall p :: 0 <= p < 8 ==>
              (Bit(r, p) <==> Bit(was, p) || (pos2 <= p && p + pos - pos2 < 8 && Bit(src, p + pos - pos2)))
  {
    var temp := From(src, pos);
    if 8 - pos2 > 8 - pos {
      temp := ShiftLeft(temp, pos - pos2);
    } else {
      temp := ShiftRight(temp, pos2 - pos);
    }
    r := Or(was, temp);
  }

  /**
   Intersec.  Bits below pos2 are finished and bits past the end of the source
   byte are not reached yet; both survive, provided that one of the two
   positions is at a byte boundary.
   */
  method AndInto(was: bv8, src: bv8, pos: nat, pos2: nat) returns (r: bv8)
    requires pos < 8 && pos2 < 8 && (pos == 0 || pos2 == 0)
    ensures forall p :: 0 <= p < 8 ==>
              (Bit(r, p) <==> Bit(was, p) && (pos2 <= p && p + pos - pos2 < 8 ==> Bit(src, p + pos - pos2)))
  {
    var temp := From(src, pos);
    if 8 - pos2 > 8 - pos {
      temp := ShiftLeft(temp, pos - pos2);
      temp := FillLow(temp, pos - pos2);
    } else {
      temp := ShiftRight(temp, pos2 - pos);
      temp := FillHigh(temp, pos2);
    }
    r := And(was, temp);
  }

  /** Setbit, after the bucket offset has been added. */
  method Setbit(n: nat, bmp: array<bv8>)
    requires n < 8 * bmp.Length
    modifies bmp
    ensures Ones(bmp[..]) == old(Ones(bmp[..])) + {n}
  {
    ghost var was := bmp[..];
    bmp[n / 8] := bmp[n / 8] | (0x80 >> (n % 8));
    forall t: nat | t < 8 * bmp.Length
      ensures BitAt(bmp[..], t) <==> BitAt(was, t) || t == n
    {
      if t / 8 == n / 8 {
        BitOr(was[n / 8], 0x80 >> (n % 8), t % 8);
        BitMasks(n % 8, t % 8);
      }
    }
  }

  /** The end of the last byte that a non-empty region touches. */
  function RegionEnd(start: nat, len: nat): nat {
    if len == 0 then start else (start + len + 7) / 8 * 8
  }

  /** How far one turn of the unaligned loops goes: to the next byte boundary of source or destination. */
  function StepLen(start: nat, curlen: nat): nat {
    var pos, pos2 := (start + curlen) % 8, curlen % 8;
    if 8 - pos2 > 8 - pos then 8 - pos else 8 - pos2
  }

  /** Where those loops end: at the first such boundary from len on. */
  function LoopEnd(start: nat, len: nat): nat {
    var a, b := RegionEnd(0, len), RegionEnd(start, len) - start;
    if a <= b then a else b
  }

  lemma LoopEndBounds(start: nat, len: nat, dstBytes: nat, srcBytes: nat)
    requires len <= 8 * dstBytes && start + len <= 8 * srcBytes
    ensures len <= LoopEnd(start, len) <= 8 * dstBytes && start + LoopEnd(start, len) <= 8 * srcBytes
  {
  }

  /** A turn that begins before len does not pass the end, and one that reaches len is there. */
  lemma StepWithinEnd(start: nat, curlen: nat, len: nat)
    requires curlen < len
    ensures curlen + StepLen(start, curlen) <= LoopEnd(start, len)
    ensures curlen + StepLen(start, curlen) >= len ==> curlen + StepLen(start, curlen) == LoopEnd(start, len)
  {
  }

  /** The loop body of Copybmp. */
  method CopyStep(dst: array<bv8>, src: array<bv8>, start: nat, curlen: nat, len: nat) returns (step: nat)
    requires dst != src && curlen < len <= 8 * dst.Length && start + len <= 8 * src.Length
    modifies dst
    ensures step == StepLen(start, curlen) && curlen + step <= 8 * dst.Length && start + curlen + step <= 8 * src.Length
    ensures forall t: nat :: t < 8 * dst.Length ==>
              (BitAt(dst[..], t) <==>
               BitAt(old(dst[..]), t) || (curlen <= t < curlen + step && BitAt(src[..], start + t)))
  {
    StepFits(start, curlen, len, dst.Length, src.Length);
    var n := start + curlen;
    var index := n / 8;
    var pos := n % 8;
    var pos2 := curlen % 8;
    step := if 8 - pos2 > 8 - pos then 8 - pos else 8 - pos2;
    dst[curlen / 8] := OrInto(dst[curlen / 8], src[index], pos, pos2);
    OredBits(old(dst[..]), dst[..], src[..], start, curlen);
  }

  lemma OredBits(was: seq<bv8>, now: seq<bv8>, src: seq<bv8>, start: nat, curlen: nat)
    requires curlen < 8 * |was| && start + curlen + StepLen(start, curlen) <= 8 * |src|
    requires |now| == |was| && now == was[curlen / 8 := now[curlen / 8]]
    requires
      var pos, pos2 := (start + curlen) % 8, curlen % 8;
      forall p :: 0 <= p < 8 ==>
        (Bit(now[curlen / 8], p) <==>
         Bit(was[curlen / 8], p) || (pos2 <= p && p + pos - pos2 < 8 && Bit(src[(start + curlen) / 8], p + pos - pos2)))
    ensures forall t: nat :: t < 8 * |now| ==>
              (BitAt(now, t) <==>
               BitAt(was, t) || (curlen <= t < curlen + StepLen(start, curlen) && BitAt(src, start + t)))
  {
    forall t: nat | t < 8 * |now|
      ensures BitAt(now, t) <==>
              BitAt(was, t) || (curlen <= t < curlen + StepLen(start, curlen) && BitAt(src, start + t))
    {
      if t / 8 == curlen / 8 {
        SameByte(start, curlen, t);
      }
    }
  }

  /** Copybmp: the first len bits of dst gain the len bits of src that begin at start, and so do the few up to the loop's end. */
  method Copybmp(dst: array<bv8>, src: array<bv8>, start: nat, len: nat)
    requires dst != src && len <= 8 * dst.Length && start + len <= 8 * src.Length
    modifies dst
    ensures forall t: nat :: t < len ==>
              (BitAt(dst[..], t) <==> BitAt(old(dst[..]), t) || BitAt(src[..], start + t))
    ensures forall t: nat :: len <= t < 8 * dst.Length ==>
              (BitAt(dst[..], t) <==>
               BitAt(old(dst[..]), t) || (t < LoopEnd(start, len) && start + t < 8 * src.Length && BitAt(src[..], start + t)))
  {
    LoopEndBounds(start, len, dst.Length, src.Length);
    var curlen := 0;
    while curlen < len
      invariant curlen <= LoopEnd(start, len) && (curlen >= len ==> curlen == LoopEnd(start, len))
      invariant forall t: nat :: t < curlen ==>
                  (BitAt(dst[..], t) <==> BitAt(old(dst[..]), t) || BitAt(src[..], start + t))
      invariant forall t: nat :: curlen <= t < 8 * dst.Length ==> (BitAt(dst[..], t) <==> BitAt(old(dst[..]), t))
    {
      StepWithinEnd(start, curlen, len);
      var step := CopyStep(dst, src, start, curlen, len);
      curlen := curlen + step;
    }
  }

  /** The loop body of Intersec. */
  method AndStep(dst: array<bv8>, src: array<bv8>, start: nat, curlen: nat, len: nat) returns (step: nat)
    requires dst != src && curlen < len <= 8 * dst.Length && start + len <= 8 * src.Length
    requires (start + curlen) % 8 == 0 || curlen % 8 == 0
    modifies dst
    ensures step == StepLen(start, curlen) && curlen + step <= 8 * dst.Length && start + curlen + step <= 8 * src.Length
    ensures (start + curlen + step) % 8 == 0 || (curlen + step) % 8 == 0
    ensures forall t: nat :: t < 8 * dst.Length ==>
              (BitAt(dst[..], t) <==>
               BitAt(old(dst[..]), t) && (curlen <= t < curlen + step ==> BitAt(src[..], start + t)))
  {
    StepFits(start, curlen, len, dst.Length, src.Length);
    var n := start + curlen;
    var index := n / 8;
    var pos := n % 8;
    var pos2 := curlen % 8;
    step := if 8 - pos2 > 8 - pos then 8 - pos else 8 - pos2;
    dst[curlen / 8] := AndInto(dst[curlen / 8], src[index], pos, pos2);
    AndedBits(old(dst[..]), dst[..], src[..], start, curlen);
  }

  lemma AndedBits(was: seq<bv8>, now: seq<bv8>, src: seq<bv8>, start: nat, curlen: nat)
    requires curlen < 8 * |was| && start + curlen + StepLen(start, curlen) <= 8 * |src|
    requires |now| == |was| && now == was[curlen / 8 := now[curlen / 8]]
    requires
      var pos, pos2 := (start + curlen) % 8, curlen % 8;
      forall p :: 0 <= p < 8 ==>
        (Bit(now[curlen / 8], p) <==>
         Bit(was[curlen / 8], p) && (pos2 <= p && p + pos - pos2 < 8 ==> Bit(src[(start + curlen) / 8], p + pos - pos2)))
    ensures forall t: nat :: t < 8 * |now| ==>
              (BitAt(now, t) <==>
               BitAt(was, t) && (curlen <= t < curlen + StepLen(start, curlen) ==> BitAt(src, start + t)))
  {
    forall t: nat | t < 8 * |now|
      ensures BitAt(now, t) <==>
              BitAt(was, t) && (curlen <= t < curlen + StepLen(start, curlen) ==> BitAt(src, start + t))
    {
      if t / 8 == curlen / 8 {
        SameByte(start, curlen, t);
      }
    }
  }

  /** Intersec: the first len bits of dst are ANDed with the len bits of src that begin at start, and so are the few up to the loop's end. */
  method Intersec(dst: array<bv8>, src: array<bv8>, start: nat, len: nat)
    requires dst != src && len <= 8 * dst.Length && start + len <= 8 * src.Length
    modifies dst
    ensures forall t: nat :: t < len ==>
              (BitAt(dst[..], t) <==> BitAt(old(dst[..]), t) && BitAt(src[..], start + t))
    ensures forall t: nat :: len <= t < 8 * dst.Length ==>
              (BitAt(dst[..], t) <==>
               BitAt(old(dst[..]), t) && (t < LoopEnd(start, len) && start + t < 8 * src.Length ==> BitAt(src[..], start + t)))
  {
    LoopEndBounds(start, len, dst.Length, src.Length);
    var curlen := 0;
    while curlen < len
      invariant curlen <= LoopEnd(start, len) && (curlen >= len ==> curlen == LoopEnd(start, len))
      invariant (start + curlen) % 8 == 0 || curlen % 8 == 0
      invariant forall t: nat :: t < curlen ==>
                  (BitAt(dst[..], t) <==> BitAt(old(dst[..]), t) && BitAt(src[..], start + t))
      invariant forall t: nat :: curlen <= t < 8 * dst.Length ==> (BitAt(dst[..], t) <==> BitAt(old(dst[..]), t))
    {
      StepWithinEnd(start, curlen, len);
      var step := AndStep(dst, src, start, curlen, len);
      curlen := curlen + step;
    }
  }

  /** What a merged region means for the sets of ones. */
  lemma MergedOnes(before: seq<bv8>, other: seq<bv8>, after: seq<bv8>, start: nat, len: nat)
    requires |before| == |other| == |after|
    requires forall t: nat :: t < 8 * |after| ==>
               (BitAt(after, t) <==> BitAt(before, t) || (start <= t < RegionEnd(start, len) && BitAt(other, t)))
    ensures Ones(before) <= Ones(after) <= Ones(before) + Ones(other)
    ensures forall t: nat :: start <= t < start + len && t in Ones(other) ==> t in Ones(after)
  {
  }

  lemma EndReached(start: nat, curlen: nat, len: nat)
    requires curlen >= len && (len == 0 ==> curlen == 0)
    requires curlen > 0 ==> (start + curlen) % 8 == 0 && curlen < len + 8
    ensures start + curlen == RegionEnd(start, len)
  {
  }

  /** One byte of Mergebmp, from bit n on. */
  method MergeStep(bmp1: array<bv8>, bmp2: array<bv8>, n: nat) returns (pos: nat)
    requires bmp1.Length == bmp2.Length && n < 8 * bmp1.Length
    modifies bmp1
    ensures pos == n % 8
    ensures forall t: nat :: t < 8 * bmp1.Length ==>
              (BitAt(bmp1[..], t) <==>
               BitAt(old(bmp1[..]), t) || (n <= t < n + 8 - pos && BitAt(old(bmp2[..]), t)))
  {
    var index := n / 8;
    pos := n % 8;
    var temp := From(bmp2[index], pos);
    bmp1[index] := Or(bmp1[index], temp);
    forall t: nat | t < 8 * bmp1.Length
      ensures BitAt(bmp1[..], t) <==>
              BitAt(old(bmp1[..]), t) || (n <= t < n + 8 - pos && BitAt(old(bmp2[..]), t))
    {
      if t / 8 == index {
        assert n <= t < n + 8 - pos <==> pos <= t % 8;
      }
    }
  }

  /**
   Mergebmp: bmp1 is ORed with bmp2 from start on, up to the end of the byte in
   which the region [start, start + len) ends; nothing else changes.
   */
  method Mergebmp(bmp1: array<bv8>, bmp2: array<bv8>, start: nat, len: nat)
    requires bmp1.Length == bmp2.Length && start + len <= 8 * bmp1.Length
    modifies bmp1
    ensures forall t: nat :: t < 8 * bmp1.Length ==>
              (BitAt(bmp1[..], t) <==>
               BitAt(old(bmp1[..]), t) || (start <= t < RegionEnd(start, len) && BitAt(old(bmp2[..]), t)))
  {
    ghost var was, other := bmp1[..], bmp2[..];
    var curlen := 0;
    while curlen < len
      invariant start + curlen <= 8 * bmp1.Length && (len == 0 ==> curlen == 0)
      invariant curlen > 0 ==> (start + curlen) % 8 == 0 && curlen < len + 8
      invariant bmp1 != bmp2 ==> bmp2[..] == other
      invariant forall t: nat :: t < 8 * bmp1.Length ==>
                  (BitAt(bmp1[..], t) <==> BitAt(was, t) || (start <= t < start + curlen && BitAt(other, t)))
    {
      var pos := MergeStep(bmp1, bmp2, start + curlen);
      curlen := curlen + 8 - pos;
    }
    EndReached(start, curlen, len);
  }
}
