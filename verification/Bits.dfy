/** Bits of a byte, numbered from the most significant one as the bitmaps and the flow keys number them. */
module Bits {
  function Zeros(n: nat): seq<bv8> {
    seq(n, _ => 0)
  }

  predicate Bit(b: bv8, p: nat)
    requires p < 8
  {
    match p
    case 0 => b & 0x80 != 0
    case 1 => b & 0x40 != 0
    case 2 => b & 0x20 != 0
    case 3 => b & 0x10 != 0
    case 4 => b & 0x08 != 0
    case 5 => b & 0x04 != 0
    case 6 => b & 0x02 != 0
    case 7 => b & 0x01 != 0
  }

  lemma Eight(k: nat)
    requires k < 8
    ensures k == 0 || k == 1 || k == 2 || k == 3 || k == 4 || k == 5 || k == 6 || k == 7
  {
  }

  lemma BitOr(a: bv8, b: bv8, p: nat)
    requires p < 8
    ensures Bit(a | b, p) <==> Bit(a, p) || Bit(b, p)
  {
    Eight(p);
  }

  lemma BitAnd(a: bv8, b: bv8, p: nat)
    requires p < 8
    ensures Bit(a & b, p) <==> Bit(a, p) && Bit(b, p)
  {
    Eight(p);
  }

  lemma BitShl(b: bv8, k: nat, p: nat)
    requires p < 8 && k < 8
    ensures Bit(b << k, p) <==> p + k < 8 && Bit(b, p + k)
  {
    Eight(p);
    Eight(k);
  }

  lemma BitShr(b: bv8, k: nat, p: nat)
    requires p < 8 && k < 8
    ensures Bit(b >> k, p) <==> p >= k && Bit(b, p - k)
  {
    Eight(p);
    Eight(k);
  }

  lemma BitMasks(k: nat, p: nat)
    requires p < 8 && k < 8
    ensures Bit(0xff >> k, p) <==> p >= k
    ensures Bit(0x80 >> k, p) <==> p == k
    ensures Bit((1 << k) - 1, p) <==> p >= 8 - k
  {
    Eight(p);
    Eight(k);
  }

  /** `256 - (1 << (8 - k))` cut to a byte: the k high bits. */
  function HighBits(k: nat): bv8
    requires k < 8
  {
    var wide: bv16 := 256 - (1 << (8 - k));
    (wide & 0xff) as bv8
  }

  lemma BitHighBits(k: nat, p: nat)
    requires p < 8 && k < 8
    ensures Bit(HighBits(k), p) <==> p < k
  {
    Eight(p);
    Eight(k);
  }

  /** A byte is its eight bits. */
  lemma ByteExtensional(a: bv8, b: bv8)
    requires forall p :: 0 <= p < 8 ==> (Bit(a, p) <==> Bit(b, p))
    ensures a == b
  {
    assert Bit(a, 0) == Bit(b, 0) && Bit(a, 1) == Bit(b, 1) && Bit(a, 2) == Bit(b, 2) && Bit(a, 3) == Bit(b, 3);
    assert Bit(a, 4) == Bit(b, 4) && Bit(a, 5) == Bit(b, 5) && Bit(a, 6) == Bit(b, 6) && Bit(a, 7) == Bit(b, 7);
  }

  // ---- bits of a byte string ----

  predicate BitAt(s: seq<bv8>, t: nat)
    requires t < 8 * |s|
  {
    Bit(s[t / 8], t % 8)
  }

  /** The positions of the bits that are set. */
  function Ones(s: seq<bv8>): set<nat> {
    set t: nat | t < 8 * |s| && BitAt(s, t)
  }

  /** A byte string is determined by its length and its bits. */
  lemma OnesExtensional(s: seq<bv8>, u: seq<bv8>)
    requires |s| == |u| && Ones(s) == Ones(u)
    ensures s == u
  {
    forall i | 0 <= i < |s|
      ensures s[i] == u[i]
    {
      forall p | 0 <= p < 8
        ensures Bit(s[i], p) <==> Bit(u[i], p)
      {
        var t := 8 * i + p;
        assert t / 8 == i && t % 8 == p;
        assert t in Ones(s) <==> t in Ones(u);
        assert BitAt(s, t) == Bit(s[i], p) && BitAt(u, t) == Bit(u[i], p);
      }
      ByteExtensional(s[i], u[i]);
    }
  }
}
