/**
 What the generated tables and the port numbering do together: a probe climbs,
 turns once, descends, and reaches every other host a known number of times.
 */
module ClosProbe {
  import opened Arith
  import opened ClosTopology
  import opened FlowTable

  /** A probe about to enter a node at a port. */
  type Hop = (Node, nat)

  /** The switch ports that `Out` names are ports of the switch. */
  lemma {:induction false} PortsInRange(lo: nat, hi: nat, skip: nat, p: nat)
    requires p in Ports(lo, hi, skip)
    ensures lo <= p <= hi && p > 0 && p != skip
    decreases hi
  {
    if p in Ports(lo, hi - 1, skip) {
      PortsInRange(lo, hi - 1, skip, p);
    }
  }

  lemma OutIsPort(z: Size, n: Node, port: nat, p: nat)
    requires InRange(z, n) && p in Out(z, n, port)
    ensures IsPort(z, n, p) && p != port
  {
    match n
    case Spine(_, _) => PortsInRange(1, z.pod, port, p);
    case Leaf(_, _) =>
      if port <= z.spine {
        PortsInRange(z.spine + 1, z.spine + z.tor, 0, p);
      } else {
        PortsInRange(1, z.spine + z.tor, port, p);
      }
    case Tor(_, _) =>
      if port <= z.leaf {
        PortsInRange(z.leaf + 1, z.leaf + z.host, 0, p);
      } else {
        PortsInRange(1, z.leaf + z.host, port, p);
      }
  }

  // ---- no valleys ----

  function Height(n: Node): nat {
    match n
    case Host(_, _, _) => 0
    case Tor(_, _) => 1
    case Leaf(_, _) => 2
    case Spine(_, _) => 3
  }

  /** A probe at a port came down if the other end of that port is higher. */
  ghost predicate CameDown(z: Size, h: Hop) {
    IsPort(z, h.0, h.1) && Height(Peer(z, h.0, h.1).0) > Height(h.0)
  }

  /** h' is one of the places to which the switch of h copies a probe. */
  ghost predicate Forwards(z: Size, h: Hop, h': Hop) {
    IsPort(z, h.0, h.1) && exists p :: p in Out(z, h.0, h.1) && IsPort(z, h.0, p) && Peer(z, h.0, p) == h'
  }

  /** Five switches at most: what remains of the climb and the descent. */
  function HopsLeft(z: Size, h: Hop): nat
    requires IsPort(z, h.0, h.1)
  {
    if Height(Peer(z, h.0, h.1).0) > Height(h.0) then Height(h.0) else 6 - Height(h.0)
  }

  /** Each copy goes strictly down once the probe has come down, and is strictly nearer to its end. */
  lemma StepsTowardHost(z: Size, h: Hop, h': Hop)
    requires Forwards(z, h, h')
    ensures IsPort(z, h'.0, h'.1)
    ensures CameDown(z, h) ==> CameDown(z, h')
    ensures !h'.0.Host? ==> HopsLeft(z, h') < HopsLeft(z, h)
  {
    var (n, port) := h;
    var p :| p in Out(z, n, port) && IsPort(z, n, p) && Peer(z, n, p) == h';
    PeerIsSymmetric(z, n, p);
    OutIsPort(z, n, port, p);
    match n
    case Spine(_, _) =>
    case Leaf(_, _) =>
      if port <= z.spine {
        PortsInRange(z.spine + 1, z.spine + z.tor, 0, p);
      }
    case Tor(_, _) =>
      if port <= z.leaf {
        PortsInRange(z.leaf + 1, z.leaf + z.host, 0, p);
      }
    case Host(_, _, _) =>
  }

  /** A route of one copy, hop by hop, that begins where a host's probe enters its tor. */
  ghost predicate Route(z: Size, src: Node, path: seq<Hop>) {
    && src.Host? && InRange(z, src) && |path| > 0 && path[0] == Peer(z, src, 0)
    && forall i :: 0 <= i < |path| - 1 ==> Forwards(z, path[i], path[i + 1])
  }

  lemma {:induction false} RouteStays(z: Size, src: Node, path: seq<Hop>, i: nat)
    requires Route(z, src, path) && i < |path|
    ensures IsPort(z, path[i].0, path[i].1)
    ensures !path[i].0.Host? ==> HopsLeft(z, path[i]) + i <= 5
    decreases i
  {
    PeerIsSymmetric(z, src, 0);
    if i > 0 {
      RouteStays(z, src, path, i - 1);
      assert Forwards(z, path[i - 1], path[i - 1 + 1]);
      StepsTowardHost(z, path[i - 1], path[i]);
    }
  }

  /** On every route, a probe that has come down keeps coming down. */
  lemma {:induction false} NeverUpAgain(z: Size, src: Node, path: seq<Hop>, i: nat, j: nat)
    requires Route(z, src, path) && i <= j < |path| && CameDown(z, path[i])
    ensures CameDown(z, path[j])
    decreases j
  {
    if i < j {
      NeverUpAgain(z, src, path, i, j - 1);
      assert Forwards(z, path[j - 1], path[j - 1 + 1]);
      StepsTowardHost(z, path[j - 1], path[j]);
    }
  }

  /** Every route passes at most five switches. */
  lemma FiveSwitches(z: Size, src: Node, path: seq<Hop>, i: nat)
    requires Route(z, src, path) && i < |path| && !path[i].0.Host?
    ensures i < 5
  {
    RouteStays(z, src, path, i);
  }

  // ---- counting copies ----

  /** How many copies of a probe entering n at a port reach dst, if copies are followed for ttl switches. */
  function Copies(z: Size, n: Node, port: nat, dst: Node, ttl: nat): nat
    requires InRange(z, n)
    decreases ttl, 1, 0
  {
    if n.Host? then if n == dst then 1 else 0
    else if ttl == 0 then 0
    else
      var outs := Out(z, n, port);
      assert forall p :: p in outs ==> IsPort(z, n, p) by {
        forall p | p in outs
          ensures IsPort(z, n, p)
        {
          OutIsPort(z, n, port, p);
        }
      }
      SumCopies(z, n, outs, dst, ttl)
  }

  function SumCopies(z: Size, n: Node, outs: seq<nat>, dst: Node, ttl: nat): nat
    requires InRange(z, n) && ttl > 0 && forall p :: p in outs ==> IsPort(z, n, p)
    decreases ttl, 0, |outs|
  {
    if outs == [] then 0
    else
      var p := outs[|outs| - 1];
      PeerIsSymmetric(z, n, p);
      var (m, q) := Peer(z, n, p);
      SumCopies(z, n, outs[..|outs| - 1], dst, ttl) + Copies(z, m, q, dst, ttl - 1)
  }

  lemma SumSnoc(z: Size, n: Node, outs: seq<nat>, p: nat, dst: Node, ttl: nat)
    requires InRange(z, n) && ttl > 0 && (forall q :: q in outs ==> IsPort(z, n, q)) && IsPort(z, n, p)
    ensures InRange(z, Peer(z, n, p).0)
    ensures SumCopies(z, n, outs + [p], dst, ttl) ==
            SumCopies(z, n, outs, dst, ttl) + Copies(z, Peer(z, n, p).0, Peer(z, n, p).1, dst, ttl - 1)
  {
    PeerIsSymmetric(z, n, p);
    assert (outs + [p])[..|outs|] == outs;
  }

  function Count(b: bool): nat {
    if b then 1 else 0
  }

  /** All of a switch's ports lo..hi without skip are its ports. */
  lemma AllPorts(z: Size, n: Node, lo: nat, hi: nat, skip: nat)
    requires InRange(z, n) && !n.Host? && hi <= Degree(z, n) && lo > 0
    ensures forall p :: p in Ports(lo, hi, skip) ==> IsPort(z, n, p)
  {
    forall p | p in Ports(lo, hi, skip)
      ensures IsPort(z, n, p)
    {
      PortsInRange(lo, hi, skip, p);
    }
  }

  /** The copies that leave by ports lo..hi without skip. */
  function PortSum(z: Size, n: Node, lo: nat, hi: nat, skip: nat, dst: Node, ttl: nat): nat
    requires InRange(z, n) && !n.Host? && hi <= Degree(z, n) && lo > 0 && ttl > 0
  {
    AllPorts(z, n, lo, hi, skip);
    SumCopies(z, n, Ports(lo, hi, skip), dst, ttl)
  }

  /** How many copies arrive at dst by way of one port. */
  function ByPort(z: Size, n: Node, p: nat, dst: Node, ttl: nat): nat
    requires IsPort(z, n, p)
  {
    PeerIsSymmetric(z, n, p);
    Copies(z, Peer(z, n, p).0, Peer(z, n, p).1, dst, ttl)
  }

  lemma PortSumStep(z: Size, n: Node, lo: nat, hi: nat, skip: nat, dst: Node, ttl: nat)
    requires InRange(z, n) && !n.Host? && 0 < lo <= hi <= Degree(z, n) && ttl > 0
    ensures PortSum(z, n, lo, hi, skip, dst, ttl) ==
            PortSum(z, n, lo, hi - 1, skip, dst, ttl) + if hi == skip then 0 else ByPort(z, n, hi, dst, ttl - 1)
  {
    AllPorts(z, n, lo, hi - 1, skip);
    SumSnoc(z, n, Ports(lo, hi - 1, skip), hi, dst, ttl);
    if hi == skip {
      assert Ports(lo, hi, skip) == Ports(lo, hi - 1, skip);
    }
  }

  /** The same number a by each upper port; by lower ports, one copy by port c alone if b holds. */
  function Share(up: nat, a: nat, b: bool, c: nat, p: nat): nat {
    if p <= up then a else Count(b && p == c)
  }

  function Least(a: nat, b: nat): nat {
    if a <= b then a else b
  }

  /** All of those shares together. */
  function Shares(lo: nat, hi: nat, skip: nat, up: nat, a: nat, b: bool, c: nat): nat {
    if hi < lo || hi == 0 then 0
    else Shares(lo, hi - 1, skip, up, a, b, c) + if hi == skip then 0 else Share(up, a, b, c, hi)
  }

  lemma {:induction false} SharesTotal(lo: nat, hi: nat, skip: nat, up: nat, a: nat, b: bool, c: nat)
    requires 0 < lo <= up + 1 && lo <= hi + 1 && c > up && (skip == 0 || skip > up)
    ensures Shares(lo, hi, skip, up, a, b, c) ==
            (Least(hi, up) + 1 - lo) * a + Count(b && c <= hi && c != skip)
    decreases hi
  {
    if hi >= lo {
      SharesTotal(lo, hi - 1, skip, up, a, b, c);
      Distribute(Least(hi, up) + 1 - lo, Least(hi - 1, up) + 1 - lo, a);
    }
  }

  /** Every port from lo to hi, but for skip, brings its share. */
  ghost predicate Brings(z: Size, n: Node, lo: nat, hi: nat, skip: nat, dst: Node, ttl: nat,
                         up: nat, a: nat, b: bool, c: nat)
    requires InRange(z, n) && !n.Host? && hi <= Degree(z, n) && lo > 0
  {
    forall p: nat :: lo <= p <= hi && p != skip ==> ByPort(z, n, p, dst, ttl) == Share(up, a, b, c, p)
  }

  lemma {:induction false} SharesAddUp(z: Size, n: Node, lo: nat, hi: nat, skip: nat, dst: Node, ttl: nat,
                                       up: nat, a: nat, b: bool, c: nat)
    requires InRange(z, n) && !n.Host? && hi <= Degree(z, n) && ttl > 0
    requires 0 < lo <= up + 1 && lo <= hi + 1 && c > up && (skip == 0 || skip > up)
    requires Brings(z, n, lo, hi, skip, dst, ttl - 1, up, a, b, c)
    ensures PortSum(z, n, lo, hi, skip, dst, ttl) == Shares(lo, hi, skip, up, a, b, c)
    decreases hi
  {
    if hi >= lo {
      PortSumStep(z, n, lo, hi, skip, dst, ttl);
      SharesAddUp(z, n, lo, hi - 1, skip, dst, ttl, up, a, b, c);
    }
  }

  lemma PortSumTotal(z: Size, n: Node, lo: nat, hi: nat, skip: nat, dst: Node, ttl: nat,
                     up: nat, a: nat, b: bool, c: nat)
    requires InRange(z, n) && !n.Host? && hi <= Degree(z, n) && ttl > 0
    requires 0 < lo <= up + 1 && lo <= hi + 1 && c > up && (skip == 0 || skip > up)
    requires Brings(z, n, lo, hi, skip, dst, ttl - 1, up, a, b, c)
    ensures PortSum(z, n, lo, hi, skip, dst, ttl) ==
            (Least(hi, up) + 1 - lo) * a + Count(b && c <= hi && c != skip)
  {
    SharesAddUp(z, n, lo, hi, skip, dst, ttl, up, a, b, c);
    SharesTotal(lo, hi, skip, up, a, b, c);
  }

  /** A probe that enters a leaf or tor from below: a copies by each upper port, and one by port c if b holds. */
  lemma FromBelow(z: Size, n: Node, port: nat, dst: Node, ttl: nat, up: nat, a: nat, b: bool, c: nat)
    requires InRange(z, n) && (n.Leaf? || n.Tor?) && ttl > 0
    requires up == (if n.Leaf? then z.spine else z.leaf) && up < port <= Degree(z, n) && up < c <= Degree(z, n)
    requires Brings(z, n, 1, Degree(z, n), port, dst, ttl - 1, up, a, b, c)
    ensures Copies(z, n, port, dst, ttl) == up * a + Count(b && c != port)
  {
    PortSumTotal(z, n, 1, Degree(z, n), port, dst, ttl, up, a, b, c);
  }

  /** Down at a tor: one copy for each of its hosts. */
  lemma FromLeaf(z: Size, p: nat, t: nat, port: nat, dst: Node, ttl: nat)
    requires InRange(z, Tor(p, t)) && 1 <= port <= z.leaf && dst.Host? && InRange(z, dst) && ttl >= 1
    ensures Copies(z, Tor(p, t), port, dst, ttl) == Count(dst.p == p && dst.t == t)
  {
    PortSumTotal(z, Tor(p, t), z.leaf + 1, z.leaf + z.host, 0, dst, ttl,
                 z.leaf, 0, dst.p == p && dst.t == t, z.leaf + dst.i + 1);
  }

  /** Down at a leaf: one copy for each host of its pod. */
  lemma FromSpine(z: Size, p: nat, i: nat, port: nat, dst: Node, ttl: nat)
    requires InRange(z, Leaf(p, i)) && 1 <= port <= z.spine && dst.Host? && InRange(z, dst) && ttl >= 2
    ensures Copies(z, Leaf(p, i), port, dst, ttl) == Count(dst.p == p)
  {
    var n, rest, own, at := Leaf(p, i), ttl - 1, dst.p == p, z.spine + dst.t + 1;
    forall q: nat | z.spine < q <= z.spine + z.tor
      ensures ByPort(z, n, q, dst, rest) == Share(z.spine, 0, own, at, q)
    {
      FromLeaf(z, p, q - z.spine - 1, i + 1, dst, rest);
    }
    PortSumTotal(z, n, z.spine + 1, z.spine + z.tor, 0, dst, ttl, z.spine, 0, own, at);
  }

  /** Across a spine: one copy for each host of another pod. */
  lemma FromPod(z: Size, s: nat, i: nat, pod: nat, dst: Node, ttl: nat)
    requires InRange(z, Spine(s, i)) && pod < z.pod && dst.Host? && InRange(z, dst) && ttl >= 3
    ensures Copies(z, Spine(s, i), pod + 1, dst, ttl) == Count(dst.p != pod)
  {
    var n, rest, at := Spine(s, i), ttl - 1, dst.p + 1;
    forall q: nat | 1 <= q <= z.pod
      ensures ByPort(z, n, q, dst, rest) == Share(0, 0, true, at, q)
    {
      FromSpine(z, q - 1, s, i + 1, dst, rest);
    }
    PortSumTotal(z, n, 1, z.pod, pod + 1, dst, ttl, 0, 0, true, at);
  }

  /** Up at a leaf, from tor t of its pod: to all its spines, and down to the other tors. */
  lemma FromTor(z: Size, p: nat, i: nat, t: nat, dst: Node, ttl: nat)
    requires InRange(z, Leaf(p, i)) && t < z.tor && dst.Host? && InRange(z, dst) && ttl >= 4
    ensures Copies(z, Leaf(p, i), z.spine + t + 1, dst, ttl) ==
            if dst.p != p then z.spine else Count(dst.t != t)
  {
    var n, rest, own, at := Leaf(p, i), ttl - 1, dst.p == p, z.spine + dst.t + 1;
    var each := Count(dst.p != p);
    forall q: nat | 1 <= q <= z.spine + z.tor
      ensures ByPort(z, n, q, dst, rest) == Share(z.spine, each, own, at, q)
    {
      LeafPortBrings(z, p, i, q, dst, rest);
    }
    FromBelow(z, n, z.spine + t + 1, dst, ttl, z.spine, each, own, at);
  }

  lemma LeafPortBrings(z: Size, p: nat, i: nat, q: nat, dst: Node, ttl: nat)
    requires InRange(z, Leaf(p, i)) && 1 <= q <= z.spine + z.tor && dst.Host? && InRange(z, dst) && ttl >= 3
    ensures ByPort(z, Leaf(p, i), q, dst, ttl) ==
            Share(z.spine, Count(dst.p != p), dst.p == p, z.spine + dst.t + 1, q)
  {
    if q <= z.spine {
      FromPod(z, i, q - 1, p, dst, ttl);
    } else {
      FromLeaf(z, p, q - z.spine - 1, i + 1, dst, ttl);
    }
  }

  lemma TorPortBrings(z: Size, p: nat, t: nat, q: nat, dst: Node, ttl: nat)
    requires InRange(z, Tor(p, t)) && 1 <= q <= z.leaf + z.host && dst.Host? && InRange(z, dst) && ttl >= 4
    ensures ByPort(z, Tor(p, t), q, dst, ttl) ==
            Share(z.leaf, if dst.p != p then z.spine else Count(dst.t != t), dst.p == p && dst.t == t,
                  z.leaf + dst.i + 1, q)
  {
    if q <= z.leaf {
      FromTor(z, p, q - 1, t, dst, ttl);
    }
  }

  /** Up at a tor, from its host h: to all leaves, and to its other hosts. */
  lemma FromHost(z: Size, p: nat, t: nat, h: nat, dst: Node, ttl: nat)
    requires InRange(z, Tor(p, t)) && h < z.host && dst.Host? && InRange(z, dst) && ttl >= 5
    ensures Copies(z, Tor(p, t), z.leaf + h + 1, dst, ttl) ==
            z.leaf * (if dst.p != p then z.spine else Count(dst.t != t))
            + Count(dst.p == p && dst.t == t && dst.i != h)
  {
    var n, rest, own, at := Tor(p, t), ttl - 1, dst.p == p && dst.t == t, z.leaf + dst.i + 1;
    var each := if dst.p != p then z.spine else Count(dst.t != t);
    forall q: nat | 1 <= q <= z.leaf + z.host
      ensures ByPort(z, n, q, dst, rest) == Share(z.leaf, each, own, at, q)
    {
      TorPortBrings(z, p, t, q, dst, rest);
    }
    FromBelow(z, n, z.leaf + h + 1, dst, ttl, z.leaf, each, own, at);
  }

  /** The number of copies of src's probe that the design promises dst. */
  function Promised(z: Size, src: Node, dst: Node): nat
    requires src.Host? && dst.Host?
  {
    if src == dst then 0
    else if src.p != dst.p then z.leaf * z.spine
    else if src.t != dst.t then z.leaf
    else 1
  }

  /**
   For every network size and every pair of hosts, exactly the promised number
   of copies arrives, and following copies beyond five switches finds no more.
   */
  lemma ProbeCovers(z: Size, src: Node, dst: Node, ttl: nat)
    requires src.Host? && dst.Host? && InRange(z, src) && InRange(z, dst) && ttl >= 5
    ensures Copies(z, Peer(z, src, 0).0, Peer(z, src, 0).1, dst, ttl) == Promised(z, src, dst)
  {
    FromHost(z, src.p, src.t, src.i, dst, ttl);
  }
}
