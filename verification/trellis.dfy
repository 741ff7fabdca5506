/** The Trellis topology generator: the body of `Trellis.__init__`.
    Each `for` loop of the script is a left fold over its index range,
    written as a function that first runs the earlier iterations and then
    the last one, so the registration order is exactly the script's. Each
    fold states, as its contract, the closed form of what it appends. */
module TrellisTopo {
  import opened Format
  import opened Topo
  import opened Addressing
  import opened Layout

  const PipeconfId: string := "org.onosproject.pipelines.fabric"

  const LeafBaseId: nat := 204
  const SpineBaseId: nat := 226
  const LeafBaseGrpcPort: nat := 55204
  const SpineBaseGrpcPort: nat := 55226

  /** The number of iterations of Python's `range(n)`: none when `n` is
      zero or negative. */
  function Count(n: int): (c: nat)
    ensures n >= 0 ==> c == n
    ensures n <= 0 ==> c == 0
  {
    if n < 0 then 0 else n
  }

  function LeafName(leafIdx: nat): string {
    SwitchName(LeafBaseId + leafIdx)
  }

  function SpineName(spineIdx: nat): string {
    SwitchName(SpineBaseId + spineIdx)
  }

  /** The switch the leaf loop registers in iteration `leafIdx`. */
  function LeafSwitch(leafIdx: nat): Switch {
    Switch(LeafName(leafIdx), ONOSBmv2Switch, LeafBaseGrpcPort + leafIdx, PipeconfId, true)
  }

  /** The switch the spine loop registers in iteration `spineIdx`. */
  function SpineSwitch(spineIdx: nat): Switch {
    Switch(SpineName(spineIdx), ONOSBmv2Switch, SpineBaseGrpcPort + spineIdx, PipeconfId, true)
  }

  /** `leaf_idx * nhost + host_idx + 1` */
  function HostId(leafIdx: nat, hostIdx: nat, nhost: nat): nat {
    leafIdx * nhost + hostIdx + 1
  }

  /** The host the host loop registers for (`leafIdx`, `hostIdx`). */
  function MakeHost(leafIdx: nat, hostIdx: nat, nhost: nat): Host {
    var id := HostId(leafIdx, hostIdx, nhost);
    Host(HostName(id), RoutedHost, Mac(id), [HostIp(leafIdx + 2, hostIdx + 1)], Gateway(leafIdx + 2))
  }

  /** The access link registered right after that host. */
  function AccessLink(leafIdx: nat, hostIdx: nat, nhost: nat): Link {
    Link(LeafName(leafIdx), HostName(HostId(leafIdx, hostIdx, nhost)))
  }

  /** The host registered for (`leafIdx`, `hostIdx`) is a routed host whose
      name and MAC both encode the id `leaf_idx * nhost + host_idx + 1`, and
      whose one address and gateway lie in the subnet `10.0.(leafIdx+2).`,
      outside 10.0.1.0/24. */
  lemma HostRecord(leafIdx: nat, hostIdx: nat, nhost: nat)
    ensures MakeHost(leafIdx, hostIdx, nhost).cls == RoutedHost
    ensures |MakeHost(leafIdx, hostIdx, nhost).name| >= 2 && MakeHost(leafIdx, hostIdx, nhost).name[0] == 'h'
    ensures AllDigits(MakeHost(leafIdx, hostIdx, nhost).name[1..])
    ensures DecimalValue(MakeHost(leafIdx, hostIdx, nhost).name[1..]) == leafIdx * nhost + hostIdx + 1
    ensures |MakeHost(leafIdx, hostIdx, nhost).mac| >= 17 && AllDigits(MakeHost(leafIdx, hostIdx, nhost).mac[15..])
    ensures DecimalValue(MakeHost(leafIdx, hostIdx, nhost).mac[15..]) == leafIdx * nhost + hostIdx + 1
    ensures |MakeHost(leafIdx, hostIdx, nhost).ips| == 1
    ensures SubnetPrefix(leafIdx + 2) <= MakeHost(leafIdx, hostIdx, nhost).ips[0]
    ensures SubnetPrefix(leafIdx + 2) <= MakeHost(leafIdx, hostIdx, nhost).gateway
    ensures !(ReservedSubnetPrefix <= MakeHost(leafIdx, hostIdx, nhost).ips[0])
    ensures !(ReservedSubnetPrefix <= MakeHost(leafIdx, hostIdx, nhost).gateway)
  {
    var id := HostId(leafIdx, hostIdx, nhost);
    HostNameParts(id);
    MacParts(id);
    AddressParts(leafIdx + 2, hostIdx + 1);
    assert HostIp(leafIdx + 2, hostIdx + 1) == SubnetPrefix(leafIdx + 2) + (Decimal(hostIdx + 1) + "/24");
    ReservedSubnetIff(leafIdx + 2, Decimal(hostIdx + 1) + "/24");
    ReservedSubnetIff(leafIdx + 2, "254");
  }

  /** The access link joins the host's leaf to the name of the host just
      registered, and never a node to itself. */
  lemma AccessLinkJoins(leafIdx: nat, hostIdx: nat, nhost: nat)
    ensures AccessLink(leafIdx, hostIdx, nhost).node1 == LeafName(leafIdx)
    ensures AccessLink(leafIdx, hostIdx, nhost).node2 == MakeHost(leafIdx, hostIdx, nhost).name
    ensures AccessLink(leafIdx, hostIdx, nhost).node1 != AccessLink(leafIdx, hostIdx, nhost).node2
  {
    NamesInjective(LeafBaseId + leafIdx, HostId(leafIdx, hostIdx, nhost));
  }

  /** Reference layout of the leaf-spine mesh: position `k` joins leaf
      `k / |spines|` to spine `k % |spines|`, so each leaf's links form one
      block, leaves in order (leaf-major). */
  function Mesh(leaves: seq<string>, spines: seq<string>): (m: seq<Link>)
    ensures |m| == |leaves| * |spines|
  {
    seq(|leaves| * |spines|, k requires 0 <= k < |leaves| * |spines| =>
      DivBound(k, |leaves|, |spines|);
      Link(leaves[k / |spines|], spines[k % |spines|]))
  }

  /** Reference layout of the hosts of the first `count` leaves: position
      `k` holds host `k % nhost` of leaf `k / nhost`. */
  function HostsUpTo(count: nat, nhost: nat): (hs: seq<Host>)
    ensures |hs| == count * nhost
  {
    seq(count * nhost, k requires 0 <= k < count * nhost =>
      DivBound(k, count, nhost);
      MakeHost(k / nhost, k % nhost, nhost))
  }

  /** Reference layout of the access links of the first `count` leaves, in
      the same positions as their hosts. */
  function AccessLinksUpTo(count: nat, nhost: nat): (ls: seq<Link>)
    ensures |ls| == count * nhost
  {
    seq(count * nhost, k requires 0 <= k < count * nhost =>
      DivBound(k, count, nhost);
      AccessLink(k / nhost, k % nhost, nhost))
  }

  /** `for leaf_idx in range(count): addSwitch(...)` */
  function AddLeafSwitches(t: Topology, count: nat): (r: Topology)
    ensures r.switches == t.switches + seq(count, i requires 0 <= i => LeafSwitch(i))
    ensures r.hosts == t.hosts && r.links == t.links
  {
    if count == 0 then t
    else AddSwitch(AddLeafSwitches(t, count - 1), LeafSwitch(count - 1))
  }

  /** `for spine_idx in range(count): addSwitch(...)` */
  function AddSpineSwitches(t: Topology, count: nat): (r: Topology)
    ensures r.switches == t.switches + seq(count, j requires 0 <= j => SpineSwitch(j))
    ensures r.hosts == t.hosts && r.links == t.links
  {
    if count == 0 then t
    else AddSwitch(AddSpineSwitches(t, count - 1), SpineSwitch(count - 1))
  }

  /** `for spine in spineSwitches: addLink(leaf, spine)` */
  function AddSpineLinks(t: Topology, leaf: string, spines: seq<string>): (r: Topology)
    ensures r.links == t.links + seq(|spines|, j requires 0 <= j < |spines| => Link(leaf, spines[j]))
    ensures r.switches == t.switches && r.hosts == t.hosts
  {
    if |spines| == 0 then t
    else AddLink(AddSpineLinks(t, leaf, spines[..|spines| - 1]), leaf, spines[|spines| - 1])
  }

  /** `for leaf in leafSwitches: for spine in spineSwitches: addLink(leaf, spine)` */
  function AddFabricLinks(t: Topology, leaves: seq<string>, spines: seq<string>): (r: Topology)
    ensures r.links == t.links + Mesh(leaves, spines)
    ensures r.switches == t.switches && r.hosts == t.hosts
  {
    if |leaves| == 0 then t
    else
      var n := |leaves| - 1;
      MeshStep(leaves, spines);
      AddSpineLinks(AddFabricLinks(t, leaves[..n], spines), leaves[n], spines)
  }

  /** The mesh of all leaves is the mesh of all but the last, followed by
      the last leaf's links to every spine. */
  lemma MeshStep(leaves: seq<string>, spines: seq<string>)
    requires |leaves| > 0
    ensures Mesh(leaves, spines) ==
            Mesh(leaves[..|leaves| - 1], spines)
            + seq(|spines|, j requires 0 <= j < |spines| => Link(leaves[|leaves| - 1], spines[j]))
  {
    var n, w := |leaves| - 1, |spines|;
    var a := Mesh(leaves, spines);
    var b := Mesh(leaves[..n], spines) + seq(w, j requires 0 <= j < w => Link(leaves[n], spines[j]));
    assert |leaves| * w == n * w + w;
    forall k | 0 <= k < |a|
      ensures a[k] == b[k]
    {
      if k < n * w {
        DivBound(k, n, w);
      } else {
        DivBlock(k, n, w);
      }
    }
  }

  /** `for host_idx in range(count)` inside leaf `leafIdx`: register the host,
      then link it to its leaf. */
  function AddLeafHosts(t: Topology, leafIdx: nat, nhost: nat, count: nat): (r: Topology)
    ensures r.switches == t.switches
    ensures r.hosts == t.hosts + seq(count, h requires 0 <= h => MakeHost(leafIdx, h, nhost))
    ensures r.links == t.links + seq(count, h requires 0 <= h => AccessLink(leafIdx, h, nhost))
  {
    if count == 0 then t
    else
      var t1 := AddLeafHosts(t, leafIdx, nhost, count - 1);
      var (t2, host) := AddHost(t1, MakeHost(leafIdx, count - 1, nhost));
      var r := AddLink(t2, LeafName(leafIdx), host);
      LeafHostsStep(leafIdx, nhost, count);
      r
  }

  /** One more iteration of the host loop appends one host and one link. */
  lemma LeafHostsStep(leafIdx: nat, nhost: nat, count: nat)
    requires count > 0
    ensures seq(count, h requires 0 <= h => MakeHost(leafIdx, h, nhost))
            == seq(count - 1, h requires 0 <= h => MakeHost(leafIdx, h, nhost)) + [MakeHost(leafIdx, count - 1, nhost)]
    ensures seq(count, h requires 0 <= h => AccessLink(leafIdx, h, nhost))
            == seq(count - 1, h requires 0 <= h => AccessLink(leafIdx, h, nhost)) + [AccessLink(leafIdx, count - 1, nhost)]
  {
  }

  /** `for leaf_idx in range(count): for host_idx in range(nhost): ...` */
  function AddHosts(t: Topology, nhost: nat, count: nat): (r: Topology)
    ensures r.switches == t.switches
    ensures r.hosts == t.hosts + HostsUpTo(count, nhost)
    ensures r.links == t.links + AccessLinksUpTo(count, nhost)
  {
    if count == 0 then t
    else
      var n := count - 1;
      var t1 := AddHosts(t, nhost, n);
      var r := AddLeafHosts(t1, n, nhost, nhost);
      HostsStep(n, nhost);
      AppendAssoc(t.hosts, HostsUpTo(n, nhost), seq(nhost, h requires 0 <= h => MakeHost(n, h, nhost)));
      AppendAssoc(t.links, AccessLinksUpTo(n, nhost), seq(nhost, h requires 0 <= h => AccessLink(n, h, nhost)));
      r
  }

  lemma AppendAssoc<T>(a: seq<T>, b: seq<T>, c: seq<T>)
    ensures (a + b) + c == a + (b + c)
  {
  }

  /** One more leaf appends its block of hosts and its block of access links. */
  lemma HostsStep(n: nat, nhost: nat)
    ensures HostsUpTo(n + 1, nhost) ==
            HostsUpTo(n, nhost) + seq(nhost, h requires 0 <= h => MakeHost(n, h, nhost))
    ensures AccessLinksUpTo(n + 1, nhost) ==
            AccessLinksUpTo(n, nhost) + seq(nhost, h requires 0 <= h => AccessLink(n, h, nhost))
  {
    var a := HostsUpTo(n + 1, nhost);
    var b := HostsUpTo(n, nhost) + seq(nhost, h requires 0 <= h => MakeHost(n, h, nhost));
    var c := AccessLinksUpTo(n + 1, nhost);
    var d := AccessLinksUpTo(n, nhost) + seq(nhost, h requires 0 <= h => AccessLink(n, h, nhost));
    assert (n + 1) * nhost == n * nhost + nhost;
    forall k | 0 <= k < |a|
      ensures a[k] == b[k] && c[k] == d[k]
    {
      if k < n * nhost {
        DivBound(k, n, nhost);
      } else {
        DivBlock(k, n, nhost);
      }
    }
  }

  /** The names the script collects in `leafSwitches` and `spineSwitches`. */
  function LeafNames(nleaf: nat): seq<string> {
    seq(nleaf, i requires 0 <= i => LeafName(i))
  }

  function SpineNames(nspine: nat): seq<string> {
    seq(nspine, j requires 0 <= j => SpineName(j))
  }

  /** The topology the script describes, position by position: leaves then
      spines; the leaf-major mesh followed by one access link per host, in
      host order; the hosts leaf-major. */
  function Expected(nleaf: nat, nspine: nat, nhost: nat): Topology {
    Topology(
      seq(nleaf, i requires 0 <= i => LeafSwitch(i)) + seq(nspine, j requires 0 <= j => SpineSwitch(j)),
      HostsUpTo(nleaf, nhost),
      Mesh(LeafNames(nleaf), SpineNames(nspine)) + AccessLinksUpTo(nleaf, nhost))
  }

  /** `Trellis(nleaf, nspine, nhost)`: leaves, then spines, then the
      leaf-spine mesh, then the hosts of each leaf with their access links. */
  function Trellis(nleaf: int, nspine: int, nhost: int): (r: Topology)
    ensures r == Expected(Count(nleaf), Count(nspine), Count(nhost))
  {
    var t1 := AddLeafSwitches(Empty, Count(nleaf));
    var t2 := AddSpineSwitches(t1, Count(nspine));
    var t3 := AddFabricLinks(t2, LeafNames(Count(nleaf)), SpineNames(Count(nspine)));
    assert t1.switches == seq(Count(nleaf), i requires 0 <= i => LeafSwitch(i));
    assert t3.links == Mesh(LeafNames(Count(nleaf)), SpineNames(Count(nspine)));
    assert t3.hosts == [];
    AddHosts(t3, Count(nhost), Count(nleaf))
  }
}
