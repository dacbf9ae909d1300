/**
 enumerate_keys_search of alg_sketchlearn.c: all keys that agree with a template
 outside the given bit positions, written one after the other while the template
 itself is overwritten between the recursive calls.
 */
module KeyEnumeration {
  import opened Arith
  import opened Bits

  // ---- the enumeration on sets of one-bits ----

  /** The keys in the order in which they are written, each as the set of its one-bits. */
  function Enum(base: set<nat>, ps: seq<nat>): (r: seq<set<nat>>)
    ensures |r| == Pow2(|ps|)
    decreases |ps|
  {
    if ps == [] then [base]
    else
      var rest, p := ps[..|ps| - 1], ps[|ps| - 1];
      Enum(base - {p}, rest) + Enum(base + {p}, rest)
  }

  ghost predicate AgreeOutside(a: set<nat>, b: set<nat>, ps: seq<nat>) {
    forall t :: t !in ps ==> (t in a <==> t in b)
  }

  lemma {:induction false} SplitLast(ps: seq<nat>, t: nat)
    requires ps != []
    ensures t in ps <==> t in ps[..|ps| - 1] || t == ps[|ps| - 1]
  {
    assert ps == ps[..|ps| - 1] + [ps[|ps| - 1]];
  }

  lemma AgreeStep(a: set<nat>, b: set<nat>, ps: seq<nat>)
    requires ps != [] && AgreeOutside(a, b, ps)
    ensures
      var rest, p := ps[..|ps| - 1], ps[|ps| - 1];
      AgreeOutside(a - {p}, b - {p}, rest) && AgreeOutside(a + {p}, b + {p}, rest)
  {
    forall t
      ensures t in ps <==> t in ps[..|ps| - 1] || t == ps[|ps| - 1]
    {
      SplitLast(ps, t);
    }
  }

  /** What the template holds at the enumerated positions does not matter. */
  lemma {:induction false} EnumIgnoresTemplateBits(a: set<nat>, b: set<nat>, ps: seq<nat>)
    requires AgreeOutside(a, b, ps)
    ensures Enum(a, ps) == Enum(b, ps)
    decreases |ps|
  {
    if ps == [] {
      assert a == b;
    } else {
      var rest, p := ps[..|ps| - 1], ps[|ps| - 1];
      AgreeStep(a, b, ps);
      EnumIgnoresTemplateBits(a - {p}, b - {p}, rest);
      EnumIgnoresTemplateBits(a + {p}, b + {p}, rest);
    }
  }

  /** Every key written agrees with the template outside the positions. */
  lemma {:induction false} EnumSound(base: set<nat>, ps: seq<nat>, i: nat)
    requires i < Pow2(|ps|)
    ensures AgreeOutside(Enum(base, ps)[i], base, ps)
    decreases |ps|
  {
    if ps != [] {
      var rest, p := ps[..|ps| - 1], ps[|ps| - 1];
      var half := Pow2(|rest|);
      forall t
        ensures t in ps <==> t in rest || t == p
      {
        SplitLast(ps, t);
      }
      if i < half {
        EnumSound(base - {p}, rest, i);
      } else {
        EnumSound(base + {p}, rest, i - half);
      }
    }
  }

  /** Every key that agrees with the template outside the positions is written. */
  lemma {:induction false} EnumComplete(base: set<nat>, ps: seq<nat>, w: set<nat>)
    requires AgreeOutside(w, base, ps)
    ensures w in Enum(base, ps)
    decreases |ps|
  {
    if ps == [] {
      assert w == base;
    } else {
      var rest, p := ps[..|ps| - 1], ps[|ps| - 1];
      AgreeStep(w, base, ps);
      if p in w {
        assert w + {p} == w;
        EnumComplete(base + {p}, rest, w);
      } else {
        assert w - {p} == w;
        EnumComplete(base - {p}, rest, w);
      }
    }
  }

  ghost predicate Distinct(ps: seq<nat>) {
    forall i, j :: 0 <= i < j < |ps| ==> ps[i] != ps[j]
  }

  /** With distinct positions no key is written twice. */
  lemma {:induction false} EnumDistinct(base: set<nat>, ps: seq<nat>, i: nat, j: nat)
    requires Distinct(ps) && i < j < Pow2(|ps|)
    ensures Enum(base, ps)[i] != Enum(base, ps)[j]
    decreases |ps|
  {
    var rest, p := ps[..|ps| - 1], ps[|ps| - 1];
    var half := Pow2(|rest|);
    if j < half {
      EnumDistinct(base - {p}, rest, i, j);
    } else if i >= half {
      EnumDistinct(base + {p}, rest, i - half, j - half);
    } else {
      assert p !in rest;
      EnumSound(base - {p}, rest, i);
      EnumSound(base + {p}, rest, j - half);
      assert p !in Enum(base, ps)[i] && p in Enum(base, ps)[j];
    }
  }

  // ---- the buffers ----

  lemma BlockBounds(i: nat, n: nat, len: nat)
    requires i < n
    ensures 0 <= i * len <= (i + 1) * len <= n * len
  {
    Distribute(n, i + 1, len);
    Distribute(i + 1, i, len);
    ProductNonNegative(n - (i + 1), len);
    ProductNonNegative(i, len);
  }

  /** Key number i of an output buffer. */
  function Block(bytes: seq<bv8>, i: nat, len: nat): seq<bv8>
    requires (i + 1) * len <= |bytes|
  {
    BlockBounds(i, i + 1, len);
    bytes[i * len..(i + 1) * len]
  }

  /** From key number n0 on, the buffer holds keys with these one-bits. */
  ghost predicate Holds(bytes: seq<bv8>, n0: nat, len: nat, keys: seq<set<nat>>)
    requires (n0 + |keys|) * len <= |bytes|
  {
    forall i :: 0 <= i < |keys| ==> (BlockBounds(n0 + i, n0 + |keys|, len); Ones(Block(bytes, n0 + i, len)) == keys[i])
  }

  /** Bytes below an earlier mark are untouched, so the keys there still stand. */
  lemma HoldsFramed(before: seq<bv8>, after: seq<bv8>, n0: nat, len: nat, keys: seq<set<nat>>)
    requires |before| == |after| && (n0 + |keys|) * len <= |before| && Holds(before, n0, len, keys)
    requires before[..(n0 + |keys|) * len] == after[..(n0 + |keys|) * len]
    ensures Holds(after, n0, len, keys)
  {
    var end := (n0 + |keys|) * len;
    forall i | 0 <= i < |keys|
      ensures (BlockBounds(n0 + i, n0 + |keys|, len); Ones(Block(after, n0 + i, len)) == keys[i])
    {
      BlockBounds(n0 + i, n0 + |keys|, len);
      assert Block(before, n0 + i, len) == before[..end][(n0 + i) * len..(n0 + i + 1) * len];
      assert Block(after, n0 + i, len) == after[..end][(n0 + i) * len..(n0 + i + 1) * len];
    }
  }

  lemma HoldsConcat(bytes: seq<bv8>, n0: nat, len: nat, a: seq<set<nat>>, b: seq<set<nat>>)
    requires (n0 + |a|) * len <= |bytes| && (n0 + |a| + |b|) * len <= |bytes|
    requires Holds(bytes, n0, len, a) && Holds(bytes, n0 + |a|, len, b)
    ensures (n0 + |a + b|) * len <= |bytes| && Holds(bytes, n0, len, a + b)
  {
    forall i | 0 <= i < |a + b|
      ensures (BlockBounds(n0 + i, n0 + |a + b|, len); Ones(Block(bytes, n0 + i, len)) == (a + b)[i])
    {
      BlockBounds(n0 + i, n0 + |a + b|, len);
      if i >= |a| {
        assert (a + b)[i] == b[i - |a|];
        assert n0 + i == n0 + |a| + (i - |a|);
      }
    }
  }

  method PutBit(b: bv8, bit: nat, v: int) returns (r: bv8)
    requires bit < 8
    ensures forall p :: 0 <= p < 8 ==> (Bit(r, p) <==> if p == bit then v == 1 else Bit(b, p))
  {
    if v == 1 {
      r := b | (1 << (7 - bit));
    } else {
      r := b & !(1 << (7 - bit));
    }
    forall p | 0 <= p < 8
      ensures Bit(r, p) <==> if p == bit then v == 1 else Bit(b, p)
    {
      OneBitMask(b, bit, p);
    }
  }

  /** set_bit: 1 sets the bit, any other value clears it. */
  method SetBit(a: array<bv8>, pos: nat, v: int)
    requires pos < 8 * a.Length
    modifies a
    ensures Ones(a[..]) == if v == 1 then old(Ones(a[..])) + {pos} else old(Ones(a[..])) - {pos}
  {
    var byte := pos / 8;
    var bit := pos % 8;
    ghost var was := a[..];
    a[byte] := PutBit(a[byte], bit, v);
    forall t: nat | t < 8 * a.Length
      ensures BitAt(a[..], t) <==> if t == pos then v == 1 else BitAt(was, t)
    {
    }
  }

  lemma OneBitMask(b: bv8, bit: nat, p: nat)
    requires bit < 8 && p < 8
    ensures Bit(b | (1 << (7 - bit)), p) <==> p == bit || Bit(b, p)
    ensures Bit(b & !(1 << (7 - bit)), p) <==> p != bit && Bit(b, p)
  {
    var mask: bv8 := 1 << (7 - bit);
    SingleBit(bit, p);
    BitOr(b, mask, p);
    BitAnd(b, !mask, p);
  }

  lemma SingleBit(bit: nat, p: nat)
    requires bit < 8 && p < 8
    ensures Bit(1 << (7 - bit), p) <==> p == bit
    ensures Bit(!(1 << (7 - bit)), p) <==> p != bit
  {
    Eight(bit);
    Eight(p);
  }

  /** memcpy of the template into place n0 of the output. */
  method CopyKey(orig: array<bv8>, ret: array<bv8>, n0: nat)
    requires orig != ret && (n0 + 1) * orig.Length <= ret.Length
    modifies ret
    ensures Holds(ret[..], n0, orig.Length, [Ones(orig[..])])
    ensures n0 * orig.Length <= ret.Length && ret[..n0 * orig.Length] == old(ret[..n0 * orig.Length])
  {
    var len := orig.Length;
    BlockBounds(n0, n0 + 1, len);
    var at := n0 * len;
    for k := 0 to len
      invariant ret[at..at + k] == orig[..k]
      invariant ret[..at] == old(ret[..at])
    {
      ret[at + k] := orig[k];
      assert ret[at..at + k + 1] == ret[at..at + k] + [orig[k]];
    }
    assert Block(ret[..], n0, len) == orig[..];
  }

  lemma HalvesFit(n0: nat, half: nat, len: nat)
    ensures n0 * len <= (n0 + half) * len <= (n0 + 2 * half) * len
  {
    Distribute(n0 + half, n0, len);
    Distribute(n0 + 2 * half, n0 + half, len);
    ProductNonNegative(half, len);
  }

  /** The first recursive call leaves the template changed, but not in a way the second one sees. */
  lemma SecondTemplate(base: set<nat>, ones: set<nat>, ps: seq<nat>)
    requires ps != []
    requires var rest, p := ps[..|ps| - 1], ps[|ps| - 1]; AgreeOutside(ones, base - {p}, rest)
    ensures var rest, p := ps[..|ps| - 1], ps[|ps| - 1]; Enum(ones + {p}, rest) == Enum(base + {p}, rest)
  {
    var rest, p := ps[..|ps| - 1], ps[|ps| - 1];
    EnumIgnoresTemplateBits(ones + {p}, base + {p}, rest);
  }

  /** The two recursive calls together fill the places of all the keys. */
  lemma BothHalves(halfway: seq<bv8>, after: seq<bv8>, base: set<nat>, ones: set<nat>, ps: seq<nat>, n0: nat, len: nat)
    requires |ps| > 0 && |halfway| == |after| && (n0 + Pow2(|ps|)) * len <= |after|
    requires (n0 + Pow2(|ps| - 1)) * len <= |after|
    requires
      var rest, p, half := ps[..|ps| - 1], ps[|ps| - 1], Pow2(|ps| - 1);
      && AgreeOutside(ones, base - {p}, rest)
      && Holds(halfway, n0, len, Enum(base - {p}, rest)) && Holds(after, n0 + half, len, Enum(ones + {p}, rest))
      && halfway[..(n0 + half) * len] == after[..(n0 + half) * len]
    ensures Holds(after, n0, len, Enum(base, ps))
  {
    var rest, p, half := ps[..|ps| - 1], ps[|ps| - 1], Pow2(|ps| - 1);
    HalvesFit(n0, half, len);
    SecondTemplate(base, ones, ps);
    HoldsFramed(halfway, after, n0, len, Enum(base - {p}, rest));
    HoldsConcat(after, n0, len, Enum(base - {p}, rest), Enum(base + {p}, rest));
  }

  lemma FinalTemplate(base: set<nat>, ones: set<nat>, last: set<nat>, ps: seq<nat>)
    requires ps != []
    requires var rest, p := ps[..|ps| - 1], ps[|ps| - 1];
             AgreeOutside(ones, base - {p}, rest) && AgreeOutside(last, ones + {p}, rest)
    ensures AgreeOutside(last, base, ps)
  {
    forall t | t !in ps
      ensures t in last <==> t in base
    {
      SplitLast(ps, t);
    }
  }

  /**
   Writes the 2^n keys from place n0 on and returns the place after them; what
   was written before stays, and outside the positions the template is as it was.
   */
  method EnumerateKeysSearch(orig: array<bv8>, ps: seq<nat>, ret: array<bv8>, n0: nat) returns (n: nat)
    requires orig != ret && (forall i :: 0 <= i < |ps| ==> ps[i] < 8 * orig.Length)
    requires (n0 + Pow2(|ps|)) * orig.Length <= ret.Length
    modifies orig, ret
    ensures n == n0 + Pow2(|ps|)
    ensures AgreeOutside(Ones(orig[..]), old(Ones(orig[..])), ps)
    ensures Holds(ret[..], n0, orig.Length, Enum(old(Ones(orig[..])), ps))
    ensures n0 * orig.Length <= ret.Length && ret[..n0 * orig.Length] == old(ret[..n0 * orig.Length])
    decreases |ps|
  {
    ghost var base := Ones(orig[..]);
    if |ps| == 0 {
      CopyKey(orig, ret, n0);
      return n0 + 1;
    }
    var rest, p := ps[..|ps| - 1], ps[|ps| - 1];
    ghost var half := Pow2(|rest|);
    ghost var len := orig.Length;
    HalvesFit(n0, half, len);
    SetBit(orig, p, 0);
    var mid := EnumerateKeysSearch(orig, rest, ret, n0);
    ghost var halfway, ones := ret[..], Ones(orig[..]);
    SetBit(orig, p, 1);
    n := EnumerateKeysSearch(orig, rest, ret, mid);
    BothHalves(halfway, ret[..], base, ones, ps, n0, len);
    FinalTemplate(base, ones, Ones(orig[..]), ps);
    assert ret[..n0 * len] == ret[..mid * len][..n0 * len];
  }

  /** In a buffer so filled, each key that agrees with the template outside the positions has its place. */
  lemma EveryKeyWritten(bytes: seq<bv8>, n0: nat, len: nat, base: set<nat>, ps: seq<nat>, k: seq<bv8>)
    returns (i: nat)
    requires (n0 + Pow2(|ps|)) * len <= |bytes| && Holds(bytes, n0, len, Enum(base, ps))
    requires |k| == len && AgreeOutside(Ones(k), base, ps)
    ensures n0 <= i < n0 + Pow2(|ps|) && (i + 1) * len <= |bytes| && Block(bytes, i, len) == k
  {
    EnumComplete(base, ps, Ones(k));
    var j :| 0 <= j < Pow2(|ps|) && Enum(base, ps)[j] == Ones(k);
    i := n0 + j;
    BlockBounds(i, n0 + Pow2(|ps|), len);
    Distribute(i + 1, i, len);
    OnesExtensional(Block(bytes, i, len), k);
  }
}
