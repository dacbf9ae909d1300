/**
 clos.py: the order in which links are added fixes every port number, because
 each node numbers its ports in the order its links arrive.
 */
module ClosTopology {
  /** nodes_list: spines per set, leaves per pod (and sets), tors per pod, hosts per tor, pods. */
  datatype Size = Size(spine: nat, leaf: nat, tor: nat, host: nat, pod: nat)

  datatype Node =
    | Spine(s: nat, i: nat)         // set, index
    | Leaf(p: nat, i: nat)          // pod, index
    | Tor(p: nat, i: nat)           // pod, index
    | Host(p: nat, t: nat, i: nat)  // pod, tor, index

  predicate InRange(z: Size, n: Node) {
    match n
    case Spine(s, i) => s < z.leaf && i < z.spine
    case Leaf(p, i) => p < z.pod && i < z.leaf
    case Tor(p, i) => p < z.pod && i < z.tor
    case Host(p, t, i) => p < z.pod && t < z.tor && i < z.host
  }

  /** Switches number their ports from 1, hosts from 0. */
  function FirstPort(n: Node): nat {
    if n.Host? then 0 else 1
  }

  function Degree(z: Size, n: Node): nat {
    match n
    case Spine(_, _) => z.pod
    case Leaf(_, _) => z.spine + z.tor
    case Tor(_, _) => z.leaf + z.host
    case Host(_, _, _) => 1
  }

  predicate IsPort(z: Size, n: Node, port: nat) {
    InRange(z, n) && FirstPort(n) <= port < FirstPort(n) + Degree(z, n)
  }

  /** The node and port at the other end of a link. */
  function Peer(z: Size, n: Node, port: nat): (Node, nat)
    requires IsPort(z, n, port)
  {
    match n
    case Spine(s, i) => (Leaf(port - 1, s), i + 1)
    case Leaf(p, i) =>
      if port <= z.spine then (Spine(i, port - 1), p + 1) else (Tor(p, port - z.spine - 1), i + 1)
    case Tor(p, i) =>
      if port <= z.leaf then (Leaf(p, port - 1), z.spine + i + 1) else (Host(p, i, port - z.leaf - 1), 0)
    case Host(p, t, i) => (Tor(p, t), z.leaf + i + 1)
  }

  /** Following a link twice leads back. */
  lemma PeerIsSymmetric(z: Size, n: Node, port: nat)
    requires IsPort(z, n, port)
    ensures var (m, q) := Peer(z, n, port); IsPort(z, m, q) && Peer(z, m, q) == (n, port)
  {
  }

  // ---- how many links each node has, at a point in each of the three loops ----

  function SpineLoop(z: Size, i: nat, j: nat, k: nat, n: Node): nat {
    if !InRange(z, n) then 0 else
    match n
    case Spine(s, x) => if s < i || (s == i && x < j) then z.pod else if s == i && x == j then k else 0
    case Leaf(p, x) => if x < i then z.spine else if x == i then j + (if p < k then 1 else 0) else 0
    case _ => 0
  }

  function LeafLoop(z: Size, i: nat, j: nat, k: nat, n: Node): nat {
    if !InRange(z, n) then 0 else
    match n
    case Spine(_, _) => z.pod
    case Leaf(p, x) =>
      z.spine + if p < i || (p == i && x < j) then z.tor else if p == i && x == j then k else 0
    case Tor(p, x) => if p < i then z.leaf else if p == i then j + (if x < k then 1 else 0) else 0
    case Host(_, _, _) => 0
  }

  function HostLoop(z: Size, i: nat, j: nat, k: nat, n: Node): nat {
    if !InRange(z, n) then 0 else
    match n
    case Spine(_, _) => z.pod
    case Leaf(_, _) => z.spine + z.tor
    case Tor(p, x) =>
      z.leaf + if p < i || (p == i && x < j) then z.host else if p == i && x == j then k else 0
    case Host(p, t, x) => if p < i || (p == i && (t < j || (t == j && x < k))) then 1 else 0
  }

  /** The far ends of a node's first links, in port order, are where the closed form says. */
  ghost predicate Fits(z: Size, n: Node, ends: seq<(Node, nat)>) {
    forall q :: 0 <= q < |ends| ==> EndFits(z, n, q, ends[q])
  }

  ghost predicate EndFits(z: Size, n: Node, q: nat, end: (Node, nat)) {
    IsPort(z, n, FirstPort(n) + q) && end == Peer(z, n, FirstPort(n) + q)
  }

  lemma FitsSnoc(z: Size, n: Node, ends: seq<(Node, nat)>, end: (Node, nat))
    requires Fits(z, n, ends) && EndFits(z, n, |ends|, end)
    ensures Fits(z, n, ends + [end])
  {
  }

  class Topo {
    const z: Size
    var links: map<Node, seq<(Node, nat)>>   // the far ends of a node's links, in port order

    ghost function LinksOf(n: Node): seq<(Node, nat)>
      reads this
    {
      if n in links then links[n] else []
    }

    ghost function Deg(n: Node): nat
      reads this
    {
      |LinksOf(n)|
    }

    ghost predicate Matches(n: Node)
      reads this
    {
      Fits(z, n, LinksOf(n))
    }

    ghost predicate Valid()
      reads this
    {
      forall n :: Matches(n)
    }

    constructor (z: Size)
      ensures this.z == z && Valid() && links == map[]
    {
      this.z, links := z, map[];
      new;
      forall n
        ensures Matches(n)
      {
        assert LinksOf(n) == [];
      }
    }

    /** addLink: the next free port at either end, whatever the two nodes are. */
    method AddLink(a: Node, b: Node)
      requires a != b
      modifies this
      ensures LinksOf(a) == old(LinksOf(a)) + [(b, FirstPort(b) + old(Deg(b)))]
      ensures LinksOf(b) == old(LinksOf(b)) + [(a, FirstPort(a) + old(Deg(a)))]
      ensures forall n :: n != a && n != b ==> LinksOf(n) == old(LinksOf(n))
    {
      var la := if a in links then links[a] else [];
      var lb := if b in links then links[b] else [];
      links := links[a := la + [(b, FirstPort(b) + |lb|)]][b := lb + [(a, FirstPort(a) + |la|)]];
    }

    /** A link added where the closed form has its next one keeps the ports as the closed form says. */
    method Connect(a: Node, b: Node)
      requires Valid() && a != b
      requires IsPort(z, a, FirstPort(a) + Deg(a)) && Peer(z, a, FirstPort(a) + Deg(a)) == (b, FirstPort(b) + Deg(b))
      modifies this
      ensures Valid()
      ensures forall n :: Deg(n) == old(Deg(n)) + if n == a || n == b then 1 else 0
    {
      PeerIsSymmetric(z, a, FirstPort(a) + Deg(a));
      assert Matches(a) && Matches(b);
      FitsSnoc(z, a, LinksOf(a), (b, FirstPort(b) + Deg(b)));
      FitsSnoc(z, b, LinksOf(b), (a, FirstPort(a) + Deg(a)));
      AddLink(a, b);
      forall n
        ensures Matches(n)
      {
        assert n != a && n != b ==> old(Matches(n));
      }
    }

    method LinkSpines()
      requires Valid() && forall n :: Deg(n) == 0
      modifies this
      ensures Valid() && forall n :: Deg(n) == LeafLoop(z, 0, 0, 0, n)
    {
      for i := 0 to z.leaf
        invariant Valid() && forall n :: Deg(n) == SpineLoop(z, i, 0, 0, n)
      {
        for j := 0 to z.spine
          invariant Valid() && forall n :: Deg(n) == SpineLoop(z, i, j, 0, n)
        {
          for k := 0 to z.pod
            invariant Valid() && forall n :: Deg(n) == SpineLoop(z, i, j, k, n)
          {
            Connect(Spine(i, j), Leaf(k, i));
          }
        }
      }
    }

    method LinkLeaves()
      requires Valid() && forall n :: Deg(n) == LeafLoop(z, 0, 0, 0, n)
      modifies this
      ensures Valid() && forall n :: Deg(n) == HostLoop(z, 0, 0, 0, n)
    {
      for i := 0 to z.pod
        invariant Valid() && forall n :: Deg(n) == LeafLoop(z, i, 0, 0, n)
      {
        for j := 0 to z.leaf
          invariant Valid() && forall n :: Deg(n) == LeafLoop(z, i, j, 0, n)
        {
          LinkLeaf(i, j);
        }
      }
    }

    /** The innermost loop: one leaf and the tors of its pod. */
    method LinkLeaf(i: nat, j: nat)
      requires i < z.pod && j < z.leaf
      requires Valid() && forall n :: Deg(n) == LeafLoop(z, i, j, 0, n)
      modifies this
      ensures Valid() && forall n :: Deg(n) == LeafLoop(z, i, j + 1, 0, n)
    {
      for k := 0 to z.tor
        invariant Valid() && forall n :: Deg(n) == LeafLoop(z, i, j, k, n)
      {
        Connect(Leaf(i, j), Tor(i, k));
      }
    }

    method LinkHosts()
      requires Valid() && forall n :: Deg(n) == HostLoop(z, 0, 0, 0, n)
      modifies this
      ensures Valid() && forall n :: Deg(n) == if InRange(z, n) then Degree(z, n) else 0
    {
      for i := 0 to z.pod
        invariant Valid() && forall n :: Deg(n) == HostLoop(z, i, 0, 0, n)
      {
        for j := 0 to z.tor
          invariant Valid() && forall n :: Deg(n) == HostLoop(z, i, j, 0, n)
        {
          for k := 0 to z.host
            invariant Valid() && forall n :: Deg(n) == HostLoop(z, i, j, k, n)
          {
            Connect(Host(i, j, k), Tor(i, j));
          }
        }
      }
    }

    /** The whole network: every port of every node, and nothing else, leads to its peer. */
    method Build()
      requires Valid() && forall n :: Deg(n) == 0
      modifies this
      ensures forall n :: Deg(n) == if InRange(z, n) then Degree(z, n) else 0
      ensures forall n :: Matches(n)
    {
      LinkSpines();
      LinkLeaves();
      LinkHosts();
    }
  }
}
