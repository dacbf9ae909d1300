/**
 flow_table_gen.py: the multicast commands written for each kind of switch, and
 what a switch that runs them does with a probe.
 */
module FlowTable {
  import opened Arith
  import opened ClosTopology

  /** The commands of the switch's control shell that the generator writes. */
  datatype Cmd =
    | TableAdd(port: nat, grp: nat)          // table_add mcast_table do_mcast port => grp
    | MgrpCreate(grp: nat)
    | NodeCreate(rid: nat, ports: seq<nat>)
    | NodeAssociate(grp: nat, handle: nat)
    | SetSwitchId(id: nat)                   // the two int tables

  /** Multicast nodes are handed out by number, in the order of their creation. */
  datatype Config = Config(table: map<nat, nat>, groups: map<nat, seq<nat>>, nodes: seq<seq<nat>>, swId: nat)

  const BLANK := Config(map[], map[], [], 0)

  function ExecCmd(c: Config, cmd: Cmd): Config {
    match cmd
    case TableAdd(port, grp) => c.(table := c.table[port := grp])
    case MgrpCreate(grp) => c.(groups := c.groups[grp := []])
    case NodeCreate(_, ports) => c.(nodes := c.nodes + [ports])
    case NodeAssociate(grp, h) => if grp in c.groups then c.(groups := c.groups[grp := c.groups[grp] + [h]]) else c
    case SetSwitchId(id) => c.(swId := id)
  }

  function Run(cmds: seq<Cmd>): Config {
    if cmds == [] then BLANK else ExecCmd(Run(cmds[..|cmds| - 1]), cmds[|cmds| - 1])
  }

  lemma RunSnoc(cmds: seq<Cmd>, cmd: Cmd)
    ensures Run(cmds + [cmd]) == ExecCmd(Run(cmds), cmd)
  {
    assert (cmds + [cmd])[..|cmds|] == cmds;
  }

  /** The ports of a list of multicast nodes. */
  function NodePorts(nodes: seq<seq<nat>>, handles: seq<nat>): seq<nat> {
    if handles == [] then []
    else NodePorts(nodes, handles[..|handles| - 1]) +
         (if handles[|handles| - 1] < |nodes| then nodes[handles[|handles| - 1]] else [])
  }

  /** Where a probe that enters at a port is copied to; no table entry means it is dropped. */
  function OutPorts(c: Config, port: nat): seq<nat> {
    if port in c.table && c.table[port] in c.groups then NodePorts(c.nodes, c.groups[c.table[port]]) else []
  }

  // ---- the lists of ports ----

  /** lo, lo + 1, ..., hi without `skip`. */
  function Ports(lo: nat, hi: nat, skip: nat): seq<nat>
    decreases hi
  {
    if hi < lo || hi == 0 then []
    else Ports(lo, hi - 1, skip) + (if hi == skip then [] else [hi])
  }

  /** [n + 1 for n in xrange(lo - 1, hi)] and then remove(skip). */
  method PortList(lo: nat, hi: nat, skip: nat) returns (r: seq<nat>)
    requires lo > 0
    ensures r == Ports(lo, hi, skip)
  {
    r := [];
    if lo > hi {
      return;
    }
    assert Ports(lo, lo - 1, skip) == [];
    for n := lo - 1 to hi
      invariant r == Ports(lo, n, skip)
    {
      if n + 1 != skip {
        r := r + [n + 1];
      }
    }
  }

  // ---- the three generators ----

  /** The commands and the configuration they have built so far. */
  method Emit(cmds: seq<Cmd>, ghost c: Config, cmd: Cmd) returns (r: seq<Cmd>, ghost d: Config)
    requires c == Run(cmds)
    ensures r == cmds + [cmd] && d == ExecCmd(c, cmd) == Run(r)
  {
    RunSnoc(cmds, cmd);
    r, d := cmds + [cmd], ExecCmd(c, cmd);
  }

  /** mc_mgrp_create, mc_node_create and mc_node_associate for one group, whose node is the next one. */
  method EmitGroup(cmds: seq<Cmd>, ghost c: Config, grp: nat, rid: nat, ports: seq<nat>)
    returns (r: seq<Cmd>, ghost d: Config)
    requires c == Run(cmds) && rid == |c.nodes|
    ensures d == Run(r) && d == c.(groups := c.groups[grp := [rid]], nodes := c.nodes + [ports])
  {
    r, d := Emit(cmds, c, MgrpCreate(grp));
    r, d := Emit(r, d, NodeCreate(rid, ports));
    r, d := Emit(r, d, NodeAssociate(grp, rid));
    GroupMade(c, grp, rid, ports);
  }

  lemma GroupMade(c: Config, grp: nat, rid: nat, ports: seq<nat>)
    ensures ExecCmd(ExecCmd(ExecCmd(c, MgrpCreate(grp)), NodeCreate(rid, ports)), NodeAssociate(grp, rid)) ==
            c.(groups := c.groups[grp := [rid]], nodes := c.nodes + [ports])
  {
    var made := c.groups[grp := []];
    assert made[grp] + [rid] == [rid];
    assert made[grp := [rid]] == c.groups[grp := [rid]];
  }

  /** The first k groups are there, group g made of node g - 1 alone. */
  ghost predicate GroupsUpTo(c: Config, k: nat) {
    |c.nodes| == k && GroupMap(c.groups, k)
  }

  ghost predicate GroupMap(groups: map<nat, seq<nat>>, k: nat) {
    forall g: nat :: (g in groups <==> 1 <= g <= k) && (g in groups ==> groups[g] == [g - 1])
  }

  lemma GroupAdded(groups: map<nat, seq<nat>>, k: nat)
    requires GroupMap(groups, k)
    ensures GroupMap(groups[k + 1 := [k]], k + 1)
  {
  }

  lemma OutPortsOf(c: Config, k: nat, p: nat)
    requires GroupsUpTo(c, k) && p in c.table && 1 <= c.table[p] <= k
    ensures OutPorts(c, p) == c.nodes[c.table[p] - 1]
  {
    var h := c.table[p] - 1;
    assert [h][..0] == [];
    assert NodePorts(c.nodes, []) + c.nodes[h] == c.nodes[h];
  }

  /** A spine after k of its pods: port p is mapped to group p, which sends to every other port. */
  ghost predicate SpineUpTo(c: Config, pod: nat, k: nat) {
    && GroupsUpTo(c, k)
    && (forall p: nat :: (p in c.table <==> 1 <= p <= k) && (p in c.table ==> c.table[p] == p))
    && forall h :: 0 <= h < k ==> c.nodes[h] == Ports(1, pod, h + 1)
  }

  method GenSpine(pod: nat, id: nat) returns (cmds: seq<Cmd>)
    ensures Run(cmds).swId == id
    ensures forall p: nat :: OutPorts(Run(cmds), p) == if 1 <= p <= pod then Ports(1, pod, p) else []
  {
    cmds := [];
    ghost var c := BLANK;
    for k := 0 to pod
      invariant c == Run(cmds) && SpineUpTo(c, pod, k)
    {
      ghost var start := c;
      cmds, c := Emit(cmds, c, TableAdd(k + 1, k + 1));
      var list := PortList(1, pod, k + 1);
      cmds, c := EmitGroup(cmds, c, k + 1, k, list);
      GroupAdded(start.groups, k);
    }
    cmds, c := Emit(cmds, c, SetSwitchId(id));
    SpineForwards(c, pod);
  }

  lemma SpineForwards(c: Config, pod: nat)
    requires SpineUpTo(c, pod, pod)
    ensures forall p: nat :: OutPorts(c, p) == if 1 <= p <= pod then Ports(1, pod, p) else []
  {
    forall p: nat
      ensures OutPorts(c, p) == if 1 <= p <= pod then Ports(1, pod, p) else []
    {
      if 1 <= p <= pod {
        OutPortsOf(c, pod, p);
      }
    }
  }

  /** The group that an upper or lower port of a leaf or tor switch is mapped to. */
  function GroupOf(up: nat, p: nat): nat {
    if p <= up then 1 else p - up + 1
  }

  ghost predicate TableUpTo(t: map<nat, nat>, up: nat, k: nat) {
    forall p: nat :: (p in t <==> 1 <= p <= k) && (p in t ==> t[p] == GroupOf(up, p))
  }

  /** The table part: upper ports share group 1, lower ports get 2, 3, ... */
  method GenTable(up: nat, down: nat) returns (cmds: seq<Cmd>)
    ensures TableUpTo(Run(cmds).table, up, up + down)
    ensures Run(cmds) == BLANK.(table := Run(cmds).table)
  {
    cmds := [];
    ghost var c := BLANK;
    for k := 0 to up
      invariant c == Run(cmds) && c == BLANK.(table := c.table) && TableUpTo(c.table, up, k)
    {
      cmds, c := Emit(cmds, c, TableAdd(k + 1, 1));
    }
    var temp := 2;
    for k := up to up + down
      invariant temp == k - up + 2
      invariant c == Run(cmds) && c == BLANK.(table := c.table) && TableUpTo(c.table, up, k)
    {
      cmds, c := Emit(cmds, c, TableAdd(k + 1, temp));
      temp := temp + 1;
    }
  }

  /** A leaf or tor switch after its table is written and t of its lower ports have their groups. */
  ghost predicate UpDownUpTo(c: Config, up: nat, down: nat, t: nat) {
    && TableUpTo(c.table, up, up + down) && GroupsUpTo(c, t + 1)
    && c.nodes[0] == Ports(up + 1, up + down, 0)
    && forall h :: 1 <= h <= t ==> c.nodes[h] == Ports(1, up + down, up + h)
  }

  /** A leaf switch (up = spines, down = tors) or a tor switch (up = leaves, down = hosts). */
  method GenUpDown(up: nat, down: nat, id: nat) returns (cmds: seq<Cmd>)
    ensures Run(cmds).swId == id
    ensures forall p: nat :: OutPorts(Run(cmds), p) == UpDownOut(up, down, p)
  {
    cmds := GenTable(up, down);
    ghost var c := Run(cmds);
    var list := PortList(up + 1, up + down, 0);
    cmds, c := EmitGroup(cmds, c, 1, 0, list);
    var temp := 2;
    for k := up to up + down
      invariant temp == k - up + 2 && c == Run(cmds) && UpDownUpTo(c, up, down, k - up)
    {
      list := PortList(1, up + down, k + 1);
      GroupAdded(c.groups, temp - 1);
      cmds, c := EmitGroup(cmds, c, temp, temp - 1, list);
      temp := temp + 1;
    }
    cmds, c := Emit(cmds, c, SetSwitchId(id));
    UpDownForwards(c, up, down);
  }

  lemma UpDownForwards(c: Config, up: nat, down: nat)
    requires UpDownUpTo(c, up, down, down)
    ensures forall p: nat :: OutPorts(c, p) == UpDownOut(up, down, p)
  {
    forall p: nat
      ensures OutPorts(c, p) == UpDownOut(up, down, p)
    {
      if 1 <= p <= up + down {
        OutPortsOf(c, down + 1, p);
      }
    }
  }

  /** From above: to every lower port.  From below: to every other port. */
  function UpDownOut(up: nat, down: nat, p: nat): seq<nat> {
    if 1 <= p <= up then Ports(up + 1, up + down, 0)
    else if up < p <= up + down then Ports(1, up + down, p)
    else []
  }

  // ---- all switches of a network ----

  /** Where each kind of switch copies a probe. */
  function Out(z: Size, n: Node, port: nat): seq<nat> {
    match n
    case Spine(_, _) => if 1 <= port <= z.pod then Ports(1, z.pod, port) else []
    case Leaf(_, _) => UpDownOut(z.spine, z.tor, port)
    case Tor(_, _) => UpDownOut(z.leaf, z.host, port)
    case Host(_, _, _) => []
  }

  /** The switch number that the generated tables carry, in the order of clos.py's device ids. */
  function SwitchId(z: Size, n: Node): nat {
    match n
    case Spine(s, i) => s * z.spine + i
    case Leaf(p, i) => z.leaf * z.spine + p * z.leaf + i
    case Tor(p, i) => z.leaf * z.spine + z.pod * z.leaf + p * z.tor + i
    case Host(_, _, _) => 0
  }

  /** The order in which clos.py creates the switches. */
  predicate CreatedBefore(n: Node, m: Node) {
    match (n, m)
    case (Spine(s, i), Spine(t, j)) => s < t || (s == t && i < j)
    case (Leaf(p, i), Leaf(q, j)) => p < q || (p == q && i < j)
    case (Tor(p, i), Tor(q, j)) => p < q || (p == q && i < j)
    case (Spine(_, _), Leaf(_, _)) => true
    case (Spine(_, _), Tor(_, _)) => true
    case (Leaf(_, _), Tor(_, _)) => true
    case _ => false
  }

  lemma FlatOrder(width: nat, a: nat, i: nat, b: nat, j: nat)
    requires i < width && (a < b || (a == b && i < j))
    ensures a * width + i < b * width + j
  {
    if a < b {
      Distribute(b, a, width);
      AtLeastOnce(b - a, width);
    }
  }

  /** Numbers follow the order of creation, so no two switches share one. */
  lemma SwitchIdsInOrder(z: Size, n: Node, m: Node)
    requires InRange(z, n) && InRange(z, m) && !n.Host? && !m.Host? && CreatedBefore(n, m)
    ensures SwitchId(z, n) < SwitchId(z, m)
  {
    match n {
      case Spine(s, i) =>
        FlatIndex(z.leaf, z.spine, s, i);
        ProductNonNegative(z.pod, z.leaf);
        if m.Spine? {
          FlatOrder(z.spine, s, i, m.s, m.i);
        }
      case Leaf(p, i) =>
        FlatIndex(z.pod, z.leaf, p, i);
        if m.Leaf? {
          FlatOrder(z.leaf, p, i, m.p, m.i);
        }
      case Tor(p, i) => FlatOrder(z.tor, p, i, m.p, m.i);
    }
    if m.Leaf? {
      ProductNonNegative(m.p, z.leaf);
    } else if m.Tor? {
      ProductNonNegative(m.p, z.tor);
    }
  }

  lemma SwitchIdsDistinct(z: Size, n: Node, m: Node)
    requires InRange(z, n) && InRange(z, m) && !n.Host? && !m.Host? && n != m
    ensures SwitchId(z, n) != SwitchId(z, m)
  {
    if CreatedBefore(n, m) {
      SwitchIdsInOrder(z, n, m);
    } else {
      SwitchIdsInOrder(z, m, n);
    }
  }

  /** And every number below the count of switches is used. */
  lemma SwitchIdsUsed(z: Size, id: nat) returns (n: Node)
    requires id < z.leaf * z.spine + z.pod * z.leaf + z.pod * z.tor
    ensures InRange(z, n) && !n.Host? && SwitchId(z, n) == id
  {
    var first, second := z.leaf * z.spine, z.pod * z.leaf;
    if id < first {
      FlatSplit(z.leaf, z.spine, id);
      n := Spine(id / z.spine, id % z.spine);
    } else if id < first + second {
      FlatSplit(z.pod, z.leaf, id - first);
      n := Leaf((id - first) / z.leaf, (id - first) % z.leaf);
    } else {
      FlatSplit(z.pod, z.tor, id - first - second);
      n := Tor((id - first - second) / z.tor, (id - first - second) % z.tor);
    }
  }

  /** The file generated for a switch makes it forward as `Out` says. */
  method FlowTableGen(z: Size, n: Node) returns (cmds: seq<Cmd>)
    requires InRange(z, n) && !n.Host?
    ensures Run(cmds).swId == SwitchId(z, n)
    ensures forall p: nat :: OutPorts(Run(cmds), p) == Out(z, n, p)
  {
    match n
    case Spine(_, _) => cmds := GenSpine(z.pod, SwitchId(z, n));
    case Leaf(_, _) => cmds := GenUpDown(z.spine, z.tor, SwitchId(z, n));
    case Tor(_, _) => cmds := GenUpDown(z.leaf, z.host, SwitchId(z, n));
  }
}
