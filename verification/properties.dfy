/** What the Trellis script promises about the topology it builds, each
    promise a named predicate over a topology record and the three counts.
    The promises are proved about `Expected`, the position-by-position
    description the generator is proved equal to, and the `Trellis...`
    lemmas at the end carry them over to `Trellis` itself for every argument
    triple, negative counts included. */
module TrellisProperties {
  import opened Format
  import opened Addressing
  import opened Topo
  import opened Layout
  import opened TrellisTopo

  // ------------------------------------------------------------------
  // Positions in the expected topology
  // ------------------------------------------------------------------

  /** Where the link from leaf `leafIdx` to spine `spineIdx` sits in the
      leaf-major mesh. */
  function MeshIndex(leafIdx: nat, spineIdx: nat, nspine: nat): nat {
    leafIdx * nspine + spineIdx
  }

  /** Host `hostIdx` of leaf `leafIdx` sits at position `HostId - 1` of the
      host list, and its access link at the same offset after the mesh. */
  lemma HostAt(nleaf: nat, nspine: nat, nhost: nat, leafIdx: nat, hostIdx: nat)
    requires leafIdx < nleaf && hostIdx < nhost
    ensures 1 <= HostId(leafIdx, hostIdx, nhost) <= nleaf * nhost
    ensures |Expected(nleaf, nspine, nhost).hosts| == nleaf * nhost
    ensures Expected(nleaf, nspine, nhost).hosts[HostId(leafIdx, hostIdx, nhost) - 1]
            == MakeHost(leafIdx, hostIdx, nhost)
    ensures Expected(nleaf, nspine, nhost).links[nleaf * nspine + HostId(leafIdx, hostIdx, nhost) - 1]
            == AccessLink(leafIdx, hostIdx, nhost)
  {
    BlockPosition(leafIdx, hostIdx, nleaf, nhost);
  }

  /** Every host position belongs to exactly one (leaf, host) pair. */
  lemma HostAtPosition(nleaf: nat, nspine: nat, nhost: nat, k: nat) returns (leafIdx: nat, hostIdx: nat)
    requires k < nleaf * nhost
    ensures leafIdx < nleaf && hostIdx < nhost && HostId(leafIdx, hostIdx, nhost) == k + 1
    ensures Expected(nleaf, nspine, nhost).hosts[k] == MakeHost(leafIdx, hostIdx, nhost)
    ensures Expected(nleaf, nspine, nhost).links[nleaf * nspine + k] == AccessLink(leafIdx, hostIdx, nhost)
  {
    leafIdx, hostIdx := Decompose(k, nleaf, nhost);
  }

  /** The link between leaf `leafIdx` and spine `spineIdx` sits at its
      mesh position. */
  lemma FabricAt(nleaf: nat, nspine: nat, nhost: nat, leafIdx: nat, spineIdx: nat)
    requires leafIdx < nleaf && spineIdx < nspine
    ensures MeshIndex(leafIdx, spineIdx, nspine) < nleaf * nspine
    ensures Expected(nleaf, nspine, nhost).links[MeshIndex(leafIdx, spineIdx, nspine)]
            == Link(LeafName(leafIdx), SpineName(spineIdx))
  {
    BlockPosition(leafIdx, spineIdx, nleaf, nspine);
  }

  /** Every mesh position belongs to exactly one (leaf, spine) pair. */
  lemma FabricAtPosition(nleaf: nat, nspine: nat, nhost: nat, m: nat) returns (leafIdx: nat, spineIdx: nat)
    requires m < nleaf * nspine
    ensures leafIdx < nleaf && spineIdx < nspine && m == MeshIndex(leafIdx, spineIdx, nspine)
    ensures Expected(nleaf, nspine, nhost).links[m] == Link(LeafName(leafIdx), SpineName(spineIdx))
  {
    leafIdx, spineIdx := Decompose(m, nleaf, nspine);
  }

  // ------------------------------------------------------------------
  // Switches
  // ------------------------------------------------------------------

  /** The switch list: `nleaf` leaves numbered from s204 with gRPC ports
      from 55204, then `nspine` spines numbered from s226 with ports from
      55226, all BMv2 switches running the fabric pipeconf with a port
      configuration. */
  predicate SwitchPlan(t: Topology, nleaf: nat, nspine: nat) {
    && |t.switches| == nleaf + nspine
    && (forall a :: 0 <= a < |t.switches| ==>
          && t.switches[a].cls == ONOSBmv2Switch
          && t.switches[a].pipeconf == "org.onosproject.pipelines.fabric"
          && t.switches[a].portcfg)
    && (forall a :: 0 <= a < nleaf ==>
          t.switches[a].name == SwitchName(204 + a) && t.switches[a].grpcPort == 55204 + a)
    && (forall a :: nleaf <= a < nleaf + nspine ==>
          t.switches[a].name == SwitchName(226 + (a - nleaf)) && t.switches[a].grpcPort == 55226 + (a - nleaf))
  }

  predicate DistinctSwitchNames(t: Topology) {
    forall a, b :: 0 <= a < b < |t.switches| ==> t.switches[a].name != t.switches[b].name
  }

  predicate DistinctGrpcPorts(t: Topology) {
    forall a, b :: 0 <= a < b < |t.switches| ==> t.switches[a].grpcPort != t.switches[b].grpcPort
  }

  lemma SwitchPlanHolds(nleaf: nat, nspine: nat, nhost: nat)
    ensures SwitchPlan(Expected(nleaf, nspine, nhost), nleaf, nspine)
  {
  }

  /** The leaf numbers 204.. and the spine numbers 226.. are 22 apart, so
      names and gRPC ports are all distinct exactly when there are at most
      22 leaves or no spine at all; with a 23rd leaf and a spine, leaf 22 and
      spine 0 are both s226 on port 55226. */
  lemma SwitchesDistinctIff(nleaf: nat, nspine: nat, nhost: nat)
    ensures DistinctSwitchNames(Expected(nleaf, nspine, nhost)) <==> nleaf <= 22 || nspine == 0
    ensures DistinctGrpcPorts(Expected(nleaf, nspine, nhost)) <==> nleaf <= 22 || nspine == 0
  {
    var t := Expected(nleaf, nspine, nhost);
    SwitchPlanHolds(nleaf, nspine, nhost);
    if nleaf <= 22 || nspine == 0 {
      forall a, b | 0 <= a < b < |t.switches|
        ensures t.switches[a].name != t.switches[b].name
        ensures t.switches[a].grpcPort != t.switches[b].grpcPort
      {
        var na := if a < nleaf then 204 + a else 226 + (a - nleaf);
        var nb := if b < nleaf then 204 + b else 226 + (b - nleaf);
        assert na != nb;
        NamesInjective(na, nb);
      }
    } else {
      assert t.switches[22].name == t.switches[nleaf].name;
      assert t.switches[22].grpcPort == t.switches[nleaf].grpcPort;
    }
  }

  /** Every link starts at a leaf; a mesh link ends at a spine and an access
      link at the host whose id is its offset after the mesh plus one. */
  lemma LinkAt(nleaf: nat, nspine: nat, nhost: nat, m: nat) returns (leafIdx: nat, other: nat)
    requires m < |Expected(nleaf, nspine, nhost).links|
    ensures leafIdx < nleaf
    ensures Expected(nleaf, nspine, nhost).links[m].node1 == LeafName(leafIdx)
    ensures m < nleaf * nspine ==>
              other < nspine && Expected(nleaf, nspine, nhost).links[m].node2 == SpineName(other)
    ensures nleaf * nspine <= m ==>
              other == m - nleaf * nspine + 1 && Expected(nleaf, nspine, nhost).links[m].node2 == HostName(other)
  {
    if m < nleaf * nspine {
      leafIdx, other := FabricAtPosition(nleaf, nspine, nhost, m);
    } else {
      var hostIdx;
      leafIdx, hostIdx := HostAtPosition(nleaf, nspine, nhost, m - nleaf * nspine);
      other := m - nleaf * nspine + 1;
    }
  }

  // ------------------------------------------------------------------
  // Fabric links
  // ------------------------------------------------------------------

  /** The first `nleaf * nspine` links form the full leaf-spine mesh: the
      link joining leaf i to spine j is at position `i * nspine + j` and
      nowhere else, so every pair is linked exactly once, leaf-major; no
      later link ends at a spine's name. */
  predicate FullMesh(t: Topology, nleaf: nat, nspine: nat) {
    MeshPlacement(t, nleaf, nspine) && MeshPairsUnique(t, nleaf, nspine) && MeshTiers(t, nleaf, nspine)
  }

  predicate MeshPlacement(t: Topology, nleaf: nat, nspine: nat) {
    && nleaf * nspine <= |t.links|
    && (forall i, j :: 0 <= i < nleaf && 0 <= j < nspine ==>
          && MeshIndex(i, j, nspine) < nleaf * nspine
          && t.links[MeshIndex(i, j, nspine)] == Link(LeafName(i), SpineName(j)))
  }

  predicate MeshPairsUnique(t: Topology, nleaf: nat, nspine: nat) {
    forall m, i, j ::
      0 <= m < nleaf * nspine && m < |t.links| && 0 <= i < nleaf && 0 <= j < nspine &&
      t.links[m] == Link(LeafName(i), SpineName(j))
      ==> m == MeshIndex(i, j, nspine)
  }

  predicate MeshTiers(t: Topology, nleaf: nat, nspine: nat) {
    forall m :: 0 <= m < |t.links| ==>
      && (m < nleaf * nspine ==> t.links[m].node1 in LeafNames(nleaf) && t.links[m].node2 in SpineNames(nspine))
      && (nleaf * nspine <= m ==> t.links[m].node2 !in SpineNames(nspine))
  }

  lemma FullMeshHolds(nleaf: nat, nspine: nat, nhost: nat)
    ensures FullMesh(Expected(nleaf, nspine, nhost), nleaf, nspine)
  {
    MeshPlacementHolds(nleaf, nspine, nhost);
    MeshPairsUniqueHolds(nleaf, nspine, nhost);
    MeshTiersHold(nleaf, nspine, nhost);
  }

  lemma MeshPlacementHolds(nleaf: nat, nspine: nat, nhost: nat)
    ensures MeshPlacement(Expected(nleaf, nspine, nhost), nleaf, nspine)
  {
    var t := Expected(nleaf, nspine, nhost);
    assert nleaf * nspine <= |t.links|;
    forall i, j | 0 <= i < nleaf && 0 <= j < nspine
      ensures MeshIndex(i, j, nspine) < nleaf * nspine && t.links[MeshIndex(i, j, nspine)] == Link(LeafName(i), SpineName(j))
    {
      FabricAt(nleaf, nspine, nhost, i, j);
    }
  }

  lemma MeshPairsUniqueHolds(nleaf: nat, nspine: nat, nhost: nat)
    ensures MeshPairsUnique(Expected(nleaf, nspine, nhost), nleaf, nspine)
  {
    var t := Expected(nleaf, nspine, nhost);
    forall m, i, j | 0 <= m < nleaf * nspine && m < |t.links| && 0 <= i < nleaf && 0 <= j < nspine &&
                     t.links[m] == Link(LeafName(i), SpineName(j))
      ensures m == MeshIndex(i, j, nspine)
    {
      MeshPositionUnique(nleaf, nspine, nhost, m, i, j);
    }
  }

  lemma MeshTiersHold(nleaf: nat, nspine: nat, nhost: nat)
    ensures MeshTiers(Expected(nleaf, nspine, nhost), nleaf, nspine)
  {
    var t := Expected(nleaf, nspine, nhost);
    forall m | 0 <= m < |t.links|
      ensures m < nleaf * nspine ==>
                t.links[m].node1 in LeafNames(nleaf) && t.links[m].node2 in SpineNames(nspine)
      ensures nleaf * nspine <= m ==> t.links[m].node2 !in SpineNames(nspine)
    {
      LinkTiers(nleaf, nspine, nhost, m);
    }
  }

  /** A leaf-spine pair occupies one mesh position only. */
  lemma MeshPositionUnique(nleaf: nat, nspine: nat, nhost: nat, m: nat, i: nat, j: nat)
    requires m < nleaf * nspine && i < nleaf && j < nspine
    requires Expected(nleaf, nspine, nhost).links[m] == Link(LeafName(i), SpineName(j))
    ensures m == MeshIndex(i, j, nspine)
  {
    var i2, j2 := FabricAtPosition(nleaf, nspine, nhost, m);
    NamesInjective(LeafBaseId + i, LeafBaseId + i2);
    NamesInjective(SpineBaseId + j, SpineBaseId + j2);
  }

  /** Mesh links run from a leaf to a spine; later links never end at a
      spine's name. */
  lemma LinkTiers(nleaf: nat, nspine: nat, nhost: nat, m: nat)
    requires m < |Expected(nleaf, nspine, nhost).links|
    ensures m < nleaf * nspine ==>
              Expected(nleaf, nspine, nhost).links[m].node1 in LeafNames(nleaf) &&
              Expected(nleaf, nspine, nhost).links[m].node2 in SpineNames(nspine)
    ensures nleaf * nspine <= m ==> Expected(nleaf, nspine, nhost).links[m].node2 !in SpineNames(nspine)
  {
    var t := Expected(nleaf, nspine, nhost);
    var i, other := LinkAt(nleaf, nspine, nhost, m);
    assert LeafNames(nleaf)[i] == LeafName(i);
    if m < nleaf * nspine {
      assert SpineNames(nspine)[other] == SpineName(other);
    } else {
      forall j | 0 <= j < nspine
        ensures SpineNames(nspine)[j] != t.links[m].node2
      {
        NamesInjective(SpineBaseId + j, other);
      }
    }
  }

  /** Some link joins two leaves or two spines. */
  predicate SameTierLink(t: Topology, nleaf: nat, nspine: nat) {
    exists m :: 0 <= m < |t.links| &&
      ((t.links[m].node1 in LeafNames(nleaf) && t.links[m].node2 in LeafNames(nleaf)) ||
       (t.links[m].node1 in SpineNames(nspine) && t.links[m].node2 in SpineNames(nspine)))
  }

  /** The fabric is bipartite exactly when the leaf and spine names do not
      collide: with a 23rd leaf and a spine, leaf 22 is named s226 like
      spine 0 and its link to spine 0 joins s226 to itself. */
  lemma SameTierLinkIff(nleaf: nat, nspine: nat, nhost: nat)
    ensures SameTierLink(Expected(nleaf, nspine, nhost), nleaf, nspine) <==> nleaf > 22 && nspine > 0
  {
    var t := Expected(nleaf, nspine, nhost);
    if nleaf > 22 && nspine > 0 {
      FabricAt(nleaf, nspine, nhost, 22, 0);
      var m := MeshIndex(22, 0, nspine);
      assert LeafNames(nleaf)[22] == SpineName(0);
      assert t.links[m].node1 in LeafNames(nleaf) && t.links[m].node2 in LeafNames(nleaf);
    } else {
      forall m | 0 <= m < |t.links|
        ensures t.links[m].node1 !in SpineNames(nspine)
        ensures t.links[m].node2 !in LeafNames(nleaf)
      {
        var i, other := LinkAt(nleaf, nspine, nhost, m);
        forall j | 0 <= j < nspine
          ensures SpineNames(nspine)[j] != LeafName(i)
        {
          NamesInjective(SpineBaseId + j, LeafBaseId + i);
        }
        forall i2 | 0 <= i2 < nleaf
          ensures LeafNames(nleaf)[i2] != t.links[m].node2
        {
          NamesInjective(LeafBaseId + i2, SpineBaseId + other);
          NamesInjective(LeafBaseId + i2, other);
        }
      }
    }
  }

  /** Some access link (a link after the mesh) starts at a spine's name. */
  predicate AccessFromSpineName(t: Topology, nleaf: nat, nspine: nat) {
    exists m :: nleaf * nspine <= m < |t.links| && t.links[m].node1 in SpineNames(nspine)
  }

  /** Access links start at their leaf, and a leaf's name is a spine's name
      only for leaf 22 onwards with a spine present: the hosts of leaf 22
      are linked to s226, the name spine 0 also has. */
  lemma AccessFromSpineNameIff(nleaf: nat, nspine: nat, nhost: nat)
    ensures AccessFromSpineName(Expected(nleaf, nspine, nhost), nleaf, nspine) <==>
            nleaf > 22 && nspine > 0 && nhost > 0
  {
    var t := Expected(nleaf, nspine, nhost);
    if nleaf > 22 && nspine > 0 && nhost > 0 {
      HostAt(nleaf, nspine, nhost, 22, 0);
      var m := nleaf * nspine + HostId(22, 0, nhost) - 1;
      assert SpineNames(nspine)[0] == LeafName(22);
      assert t.links[m].node1 in SpineNames(nspine);
    } else {
      forall m | nleaf * nspine <= m < |t.links|
        ensures t.links[m].node1 !in SpineNames(nspine)
      {
        var i, other := LinkAt(nleaf, nspine, nhost, m);
        forall j | 0 <= j < nspine
          ensures SpineNames(nspine)[j] != LeafName(i)
        {
          NamesInjective(SpineBaseId + j, LeafBaseId + i);
        }
      }
    }
  }

  // ------------------------------------------------------------------
  // Hosts and their addresses
  // ------------------------------------------------------------------

  /** `nhost` hosts per leaf, leaf-major, the one at position k named
      h(k+1), so the ids are exactly 1 .. nleaf * nhost. Host h of leaf i
      has id `i * nhost + h + 1`, MAC 00:aa:00:00:00 followed by that id,
      the single address 10.0.(i+2).(h+1)/24 and gateway 10.0.(i+2).254. */
  predicate HostPlan(t: Topology, nleaf: nat, nhost: nat) {
    && |t.hosts| == nleaf * nhost
    && (forall k :: 0 <= k < |t.hosts| ==> t.hosts[k].name == HostName(k + 1) && t.hosts[k].cls == RoutedHost)
    && (forall i, h :: 0 <= i < nleaf && 0 <= h < nhost ==>
          && 1 <= HostId(i, h, nhost) <= |t.hosts|
          && t.hosts[HostId(i, h, nhost) - 1].mac == "00:aa:00:00:00:" + ZFill(Decimal(HostId(i, h, nhost)), 2)
          && t.hosts[HostId(i, h, nhost) - 1].ips == [HostIp(i + 2, h + 1)]
          && t.hosts[HostId(i, h, nhost) - 1].gateway == Gateway(i + 2))
  }

  lemma HostPlanHolds(nleaf: nat, nspine: nat, nhost: nat)
    ensures HostPlan(Expected(nleaf, nspine, nhost), nleaf, nhost)
  {
    var t := Expected(nleaf, nspine, nhost);
    forall k | 0 <= k < |t.hosts|
      ensures t.hosts[k].name == HostName(k + 1) && t.hosts[k].cls == RoutedHost
    {
      var i, h := HostAtPosition(nleaf, nspine, nhost, k);
    }
    forall i, h | 0 <= i < nleaf && 0 <= h < nhost
      ensures 1 <= HostId(i, h, nhost) <= |t.hosts|
      ensures t.hosts[HostId(i, h, nhost) - 1] == MakeHost(i, h, nhost)
    {
      HostAt(nleaf, nspine, nhost, i, h);
    }
  }

  /** No two hosts share a name, a MAC or an interface address. */
  predicate DistinctHosts(t: Topology) {
    forall a, b :: 0 <= a < b < |t.hosts| ==>
      && t.hosts[a].name != t.hosts[b].name
      && t.hosts[a].mac != t.hosts[b].mac
      && (forall x :: x in t.hosts[a].ips ==> x !in t.hosts[b].ips)
  }

  lemma DistinctHostsHolds(nleaf: nat, nspine: nat, nhost: nat)
    ensures DistinctHosts(Expected(nleaf, nspine, nhost))
  {
    var t := Expected(nleaf, nspine, nhost);
    forall a, b | 0 <= a < b < |t.hosts|
      ensures t.hosts[a].name != t.hosts[b].name
      ensures t.hosts[a].mac != t.hosts[b].mac
      ensures forall x :: x in t.hosts[a].ips ==> x !in t.hosts[b].ips
    {
      HostPairDistinct(nleaf, nspine, nhost, a, b);
    }
  }

  lemma HostPairDistinct(nleaf: nat, nspine: nat, nhost: nat, a: nat, b: nat)
    requires a < b < nleaf * nhost
    ensures Expected(nleaf, nspine, nhost).hosts[a].name != Expected(nleaf, nspine, nhost).hosts[b].name
    ensures Expected(nleaf, nspine, nhost).hosts[a].mac != Expected(nleaf, nspine, nhost).hosts[b].mac
    ensures Expected(nleaf, nspine, nhost).hosts[a].ips[0] != Expected(nleaf, nspine, nhost).hosts[b].ips[0]
    ensures |Expected(nleaf, nspine, nhost).hosts[a].ips| == |Expected(nleaf, nspine, nhost).hosts[b].ips| == 1
  {
    var ia, ha := HostAtPosition(nleaf, nspine, nhost, a);
    var ib, hb := HostAtPosition(nleaf, nspine, nhost, b);
    MakeHostsDistinct(ia, ha, ib, hb, nhost);
  }

  /** Two hosts with different ids differ in name, MAC and address. */
  lemma MakeHostsDistinct(ia: nat, ha: nat, ib: nat, hb: nat, nhost: nat)
    requires HostId(ia, ha, nhost) != HostId(ib, hb, nhost)
    ensures MakeHost(ia, ha, nhost).name != MakeHost(ib, hb, nhost).name
    ensures MakeHost(ia, ha, nhost).mac != MakeHost(ib, hb, nhost).mac
    ensures MakeHost(ia, ha, nhost).ips[0] != MakeHost(ib, hb, nhost).ips[0]
    ensures |MakeHost(ia, ha, nhost).ips| == |MakeHost(ib, hb, nhost).ips| == 1
  {
    NamesInjective(HostId(ia, ha, nhost), HostId(ib, hb, nhost));
    MacInjective(HostId(ia, ha, nhost), HostId(ib, hb, nhost));
    HostIpInjective(ia + 2, ha + 1, ib + 2, hb + 1);
  }

  /** Two hosts share a gateway exactly when their access links go to the
      same leaf: one gateway per leaf subnet. */
  predicate GatewayPerLeaf(t: Topology, nleaf: nat, nspine: nat) {
    && |t.links| == nleaf * nspine + |t.hosts|
    && (forall a, b :: 0 <= a < |t.hosts| && 0 <= b < |t.hosts| ==>
          (t.hosts[a].gateway == t.hosts[b].gateway <==>
           t.links[nleaf * nspine + a].node1 == t.links[nleaf * nspine + b].node1))
  }

  lemma GatewayPerLeafHolds(nleaf: nat, nspine: nat, nhost: nat)
    ensures GatewayPerLeaf(Expected(nleaf, nspine, nhost), nleaf, nspine)
  {
    var t := Expected(nleaf, nspine, nhost);
    forall a, b | 0 <= a < |t.hosts| && 0 <= b < |t.hosts|
      ensures t.hosts[a].gateway == t.hosts[b].gateway <==>
              t.links[nleaf * nspine + a].node1 == t.links[nleaf * nspine + b].node1
    {
      GatewayPair(nleaf, nspine, nhost, a, b);
    }
  }

  lemma GatewayPair(nleaf: nat, nspine: nat, nhost: nat, a: nat, b: nat)
    requires a < nleaf * nhost && b < nleaf * nhost
    ensures Expected(nleaf, nspine, nhost).hosts[a].gateway == Expected(nleaf, nspine, nhost).hosts[b].gateway <==>
            Expected(nleaf, nspine, nhost).links[nleaf * nspine + a].node1 ==
            Expected(nleaf, nspine, nhost).links[nleaf * nspine + b].node1
  {
    var ia, ha := HostAtPosition(nleaf, nspine, nhost, a);
    var ib, hb := HostAtPosition(nleaf, nspine, nhost, b);
    GatewayInjective(ia + 2, ib + 2);
    NamesInjective(LeafBaseId + ia, LeafBaseId + ib);
  }

  /** `gateway` is the .254 address of the /24 subnet that holds `ip`. */
  ghost predicate SameSubnet(ip: string, gateway: string) {
    exists third :: SubnetPrefix(third) <= ip && gateway == SubnetPrefix(third) + "254"
  }

  /** Each host has one address, inside the /24 subnet its gateway names. */
  ghost predicate GatewayInSubnet(t: Topology) {
    forall k :: 0 <= k < |t.hosts| ==>
      |t.hosts[k].ips| == 1 && SameSubnet(t.hosts[k].ips[0], t.hosts[k].gateway)
  }

  lemma GatewayInSubnetHolds(nleaf: nat, nspine: nat, nhost: nat)
    ensures GatewayInSubnet(Expected(nleaf, nspine, nhost))
  {
    var t := Expected(nleaf, nspine, nhost);
    forall k | 0 <= k < |t.hosts|
      ensures |t.hosts[k].ips| == 1 && SameSubnet(t.hosts[k].ips[0], t.hosts[k].gateway)
    {
      var i, h := HostAtPosition(nleaf, nspine, nhost, k);
      var p := SubnetPrefix(i + 2);
      assert t.hosts[k].ips[0] == p + (Decimal(h + 1) + "/24");
      assert p <= t.hosts[k].ips[0];
      assert t.hosts[k].gateway == p + "254";
    }
  }

  /** No address falls in 10.0.1.0/24, the subnet the routing daemons keep
      for themselves, and no MAC in the 00:00:00:00:00:xx block. */
  predicate OutsideReservedRanges(t: Topology) {
    forall k :: 0 <= k < |t.hosts| ==>
      && !(ReservedMacPrefix <= t.hosts[k].mac)
      && !(ReservedSubnetPrefix <= t.hosts[k].gateway)
      && (forall x :: x in t.hosts[k].ips ==> !(ReservedSubnetPrefix <= x))
  }

  lemma ReservedRangesAvoided(nleaf: nat, nspine: nat, nhost: nat)
    ensures OutsideReservedRanges(Expected(nleaf, nspine, nhost))
  {
    var t := Expected(nleaf, nspine, nhost);
    forall k | 0 <= k < |t.hosts|
      ensures !(ReservedMacPrefix <= t.hosts[k].mac)
      ensures !(ReservedSubnetPrefix <= t.hosts[k].gateway)
      ensures forall x :: x in t.hosts[k].ips ==> !(ReservedSubnetPrefix <= x)
    {
      var i, h := HostAtPosition(nleaf, nspine, nhost, k);
      MacOutsideReservedBlock(k + 1);
      ReservedSubnetIff(i + 2, "254");
      ReservedSubnetIff(i + 2, Decimal(h + 1) + "/24");
      assert HostIp(i + 2, h + 1) == SubnetPrefix(i + 2) + (Decimal(h + 1) + "/24");
    }
  }

  /** Some host's address is some gateway's address 10.0.x.254. */
  predicate GatewayClash(t: Topology) {
    exists a, b :: 0 <= a < |t.hosts| && 0 <= b < |t.hosts| && t.hosts[b].gateway + "/24" in t.hosts[a].ips
  }

  /** The fourth octet `host_idx + 1` reaches the gateway's 254 exactly when
      some leaf has at least 254 hosts. */
  lemma GatewayClashIff(nleaf: nat, nspine: nat, nhost: nat)
    ensures GatewayClash(Expected(nleaf, nspine, nhost)) <==> nleaf > 0 && nhost >= 254
  {
    var t := Expected(nleaf, nspine, nhost);
    if nleaf > 0 && nhost >= 254 {
      HostAt(nleaf, nspine, nhost, 0, 253);
      Addressing.GatewayClashIff(2, 254, 2);
      assert t.hosts[253].gateway + "/24" in t.hosts[253].ips;
    } else {
      forall a, b | 0 <= a < |t.hosts| && 0 <= b < |t.hosts|
        ensures t.hosts[b].gateway + "/24" !in t.hosts[a].ips
      {
        var ia, ha := HostAtPosition(nleaf, nspine, nhost, a);
        var ib, hb := HostAtPosition(nleaf, nspine, nhost, b);
        Addressing.GatewayClashIff(ia + 2, ha + 1, ib + 2);
      }
    }
  }

  /** Every MAC is a six-octet address whose last octet is two digits. */
  predicate MacsWellFormed(t: Topology) {
    forall k :: 0 <= k < |t.hosts| ==> |t.hosts[k].mac| == 17 && AllDigits(t.hosts[k].mac[15..])
  }

  /** `zfill(2)` widens the last MAC field only up to two digits: from host
      id 100 on the field has three digits and the address is malformed. */
  lemma MacsWellFormedIff(nleaf: nat, nspine: nat, nhost: nat)
    ensures MacsWellFormed(Expected(nleaf, nspine, nhost)) <==> nleaf * nhost <= 99
  {
    var t := Expected(nleaf, nspine, nhost);
    if nleaf * nhost <= 99 {
      forall k | 0 <= k < |t.hosts|
        ensures |t.hosts[k].mac| == 17 && AllDigits(t.hosts[k].mac[15..])
      {
        var i, h := HostAtPosition(nleaf, nspine, nhost, k);
        MacWellFormedIff(k + 1);
      }
    } else {
      var i, h := HostAtPosition(nleaf, nspine, nhost, 99);
      MacWellFormedIff(100);
      assert |t.hosts[99].mac| != 17;
    }
  }

  /** Every host's address is `10.0.a.b/24` and its gateway `10.0.a.254`
      with both varying octets at most 255, so that the texts are IPv4
      addresses. */
  ghost predicate OctetsInRange(t: Topology) {
    forall k :: 0 <= k < |t.hosts| ==> OctetsOk(t.hosts[k])
  }

  /** The host's address is `10.0.a.b/24` and its gateway `10.0.a.254` for
      some a, b of at most 255. */
  ghost predicate OctetsOk(h: Host) {
    exists a: nat, b: nat :: a <= 255 && b <= 255 && h.ips == [HostIp(a, b)] && h.gateway == Gateway(a)
  }

  /** The third octet `leaf_idx + 2` passes 255 from the 255th leaf on, and
      the fourth octet `host_idx + 1` from the 256th host of a leaf on. */
  lemma OctetsInRangeIff(nleaf: nat, nspine: nat, nhost: nat)
    ensures OctetsInRange(Expected(nleaf, nspine, nhost)) <==>
            nleaf == 0 || nhost == 0 || (nleaf <= 254 && nhost <= 255)
  {
    var t := Expected(nleaf, nspine, nhost);
    if nleaf == 0 || nhost == 0 {
      assert |t.hosts| == 0;
    } else if nleaf <= 254 && nhost <= 255 {
      forall k | 0 <= k < |t.hosts|
        ensures OctetsOk(t.hosts[k])
      {
        HostOctetsInRange(nleaf, nspine, nhost, k);
      }
    } else {
      var k, third, fourth := HostOctetsOutOfRange(nleaf, nspine, nhost);
      IpOutOfRange(third, fourth);
      assert !OctetsOk(t.hosts[k]);
    }
  }

  lemma HostOctetsInRange(nleaf: nat, nspine: nat, nhost: nat, k: nat)
    requires nleaf <= 254 && nhost <= 255 && k < nleaf * nhost
    ensures OctetsOk(Expected(nleaf, nspine, nhost).hosts[k])
  {
    var i, h := HostAtPosition(nleaf, nspine, nhost, k);
    assert Expected(nleaf, nspine, nhost).hosts[k].ips == [HostIp(i + 2, h + 1)];
  }

  /** The first host whose octet passes 255: host 0 of leaf 254, or host
      255 of leaf 0. */
  lemma HostOctetsOutOfRange(nleaf: nat, nspine: nat, nhost: nat) returns (k: nat, third: nat, fourth: nat)
    requires nleaf > 0 && nhost > 0 && (nleaf > 254 || nhost > 255)
    ensures k < |Expected(nleaf, nspine, nhost).hosts|
    ensures Expected(nleaf, nspine, nhost).hosts[k].ips == [HostIp(third, fourth)]
    ensures third > 255 || fourth > 255
  {
    var i: nat, h: nat := if nleaf > 254 then 254 else 0, if nleaf > 254 then 0 else 255;
    HostAt(nleaf, nspine, nhost, i, h);
    k, third, fourth := HostId(i, h, nhost) - 1, i + 2, h + 1;
  }

  /** An address with an octet above 255 is not one with both octets at
      most 255. */
  lemma IpOutOfRange(third: nat, fourth: nat)
    requires third > 255 || fourth > 255
    ensures forall a: nat, b: nat :: a <= 255 && b <= 255 ==> [HostIp(a, b)] != [HostIp(third, fourth)]
  {
    forall a: nat, b: nat | a <= 255 && b <= 255
      ensures [HostIp(a, b)] != [HostIp(third, fourth)]
    {
      HostIpInjective(a, b, third, fourth);
      assert [HostIp(a, b)][0] == HostIp(a, b);
    }
  }

  // ------------------------------------------------------------------
  // Host attachment
  // ------------------------------------------------------------------

  /** After the mesh come the access links, one per host in host order:
      host h of leaf i is linked to leaf i, and a host's name appears in its
      own access link and in no other link. */
  predicate HomeLeafAttachment(t: Topology, nleaf: nat, nspine: nat, nhost: nat) {
    && |t.links| == nleaf * nspine + |t.hosts|
    && (forall i, h :: 0 <= i < nleaf && 0 <= h < nhost ==>
          && 1 <= HostId(i, h, nhost) <= |t.hosts|
          && t.links[nleaf * nspine + HostId(i, h, nhost) - 1]
             == Link(LeafName(i), t.hosts[HostId(i, h, nhost) - 1].name))
    && (forall k, m :: 0 <= k < |t.hosts| && 0 <= m < |t.links| ==>
          (Touches(t.links[m], t.hosts[k].name) <==> m == nleaf * nspine + k))
  }

  lemma HomeLeafAttachmentHolds(nleaf: nat, nspine: nat, nhost: nat)
    ensures HomeLeafAttachment(Expected(nleaf, nspine, nhost), nleaf, nspine, nhost)
  {
    var t := Expected(nleaf, nspine, nhost);
    forall i, h | 0 <= i < nleaf && 0 <= h < nhost
      ensures 1 <= HostId(i, h, nhost) <= |t.hosts|
      ensures t.links[nleaf * nspine + HostId(i, h, nhost) - 1]
              == Link(LeafName(i), t.hosts[HostId(i, h, nhost) - 1].name)
    {
      HostAt(nleaf, nspine, nhost, i, h);
    }
    forall k, m | 0 <= k < |t.hosts| && 0 <= m < |t.links|
      ensures Touches(t.links[m], t.hosts[k].name) <==> m == nleaf * nspine + k
    {
      TouchesIff(nleaf, nspine, nhost, k, m);
    }
  }

  /** Host k's name is an endpoint of link m exactly when m is its access link. */
  lemma TouchesIff(nleaf: nat, nspine: nat, nhost: nat, k: nat, m: nat)
    requires k < nleaf * nhost && m < |Expected(nleaf, nspine, nhost).links|
    ensures Touches(Expected(nleaf, nspine, nhost).links[m], Expected(nleaf, nspine, nhost).hosts[k].name)
            <==> m == nleaf * nspine + k
  {
    var ik, hk := HostAtPosition(nleaf, nspine, nhost, k);
    var i, other := LinkAt(nleaf, nspine, nhost, m);
    NamesInjective(LeafBaseId + i, k + 1);
    NamesInjective(SpineBaseId + other, k + 1);
    NamesInjective(other, k + 1);
  }

  // ------------------------------------------------------------------
  // Degenerate sizes
  // ------------------------------------------------------------------

  /** No link ends at a switch; since every link starts at a leaf, no link
      joins two switches. */
  predicate NoSwitchToSwitchLink(t: Topology) {
    forall m, a :: 0 <= m < |t.links| && 0 <= a < |t.switches| ==> t.links[m].node2 != t.switches[a].name
  }

  /** Without spines the links are exactly the access links. */
  lemma NoSpinesExpected(nleaf: nat, nhost: nat)
    ensures |Expected(nleaf, 0, nhost).links| == |Expected(nleaf, 0, nhost).hosts|
    ensures NoSwitchToSwitchLink(Expected(nleaf, 0, nhost))
  {
    var t := Expected(nleaf, 0, nhost);
    forall m, a | 0 <= m < |t.links| && 0 <= a < |t.switches|
      ensures t.links[m].node2 != t.switches[a].name
    {
      var i, other := LinkAt(nleaf, 0, nhost, m);
      NamesInjective(LeafBaseId + a, other);
    }
  }

  /** Without leaves there is nothing but the spines. */
  lemma NoLeavesExpected(nspine: nat, nhost: nat)
    ensures Expected(0, nspine, nhost).switches == seq(nspine, j requires 0 <= j => SpineSwitch(j))
    ensures Expected(0, nspine, nhost).hosts == []
    ensures Expected(0, nspine, nhost).links == []
  {
    assert 0 * nhost == 0 && 0 * nspine == 0;
  }

  // ------------------------------------------------------------------
  // The generator
  // ------------------------------------------------------------------

  /** The switches `Trellis` registers, and when their names and gRPC
      ports clash. */
  lemma TrellisSwitches(nleaf: int, nspine: int, nhost: int)
    ensures SwitchPlan(Trellis(nleaf, nspine, nhost), Count(nleaf), Count(nspine))
    ensures DistinctSwitchNames(Trellis(nleaf, nspine, nhost)) <==> nleaf <= 22 || nspine <= 0
    ensures DistinctGrpcPorts(Trellis(nleaf, nspine, nhost)) <==> nleaf <= 22 || nspine <= 0
  {
    SwitchPlanHolds(Count(nleaf), Count(nspine), Count(nhost));
    SwitchesDistinctIff(Count(nleaf), Count(nspine), Count(nhost));
  }

  /** The leaf-spine links `Trellis` registers. */
  lemma TrellisFabric(nleaf: int, nspine: int, nhost: int)
    ensures FullMesh(Trellis(nleaf, nspine, nhost), Count(nleaf), Count(nspine))
    ensures SameTierLink(Trellis(nleaf, nspine, nhost), Count(nleaf), Count(nspine)) <==> nleaf > 22 && nspine > 0
    ensures nspine <= 0 ==> NoSwitchToSwitchLink(Trellis(nleaf, nspine, nhost))
    ensures AccessFromSpineName(Trellis(nleaf, nspine, nhost), Count(nleaf), Count(nspine)) <==>
            nleaf > 22 && nspine > 0 && nhost > 0
  {
    FullMeshHolds(Count(nleaf), Count(nspine), Count(nhost));
    SameTierLinkIff(Count(nleaf), Count(nspine), Count(nhost));
    AccessFromSpineNameIff(Count(nleaf), Count(nspine), Count(nhost));
    if nspine <= 0 {
      NoSpinesExpected(Count(nleaf), Count(nhost));
    }
  }

  /** The hosts `Trellis` registers, all distinct. */
  lemma TrellisHosts(nleaf: int, nspine: int, nhost: int)
    ensures HostPlan(Trellis(nleaf, nspine, nhost), Count(nleaf), Count(nhost))
    ensures DistinctHosts(Trellis(nleaf, nspine, nhost))
  {
    HostPlanHolds(Count(nleaf), Count(nspine), Count(nhost));
    DistinctHostsHolds(Count(nleaf), Count(nspine), Count(nhost));
  }

  /** The subnets and gateways `Trellis` hands out. */
  lemma TrellisSubnets(nleaf: int, nspine: int, nhost: int)
    ensures GatewayPerLeaf(Trellis(nleaf, nspine, nhost), Count(nleaf), Count(nspine))
    ensures GatewayInSubnet(Trellis(nleaf, nspine, nhost))
    ensures OutsideReservedRanges(Trellis(nleaf, nspine, nhost))
  {
    GatewayPerLeafHolds(Count(nleaf), Count(nspine), Count(nhost));
    GatewayInSubnetHolds(Count(nleaf), Count(nspine), Count(nhost));
    ReservedRangesAvoided(Count(nleaf), Count(nspine), Count(nhost));
  }

  /** When a host address collides with a gateway. */
  lemma TrellisGatewayClash(nleaf: int, nspine: int, nhost: int)
    ensures GatewayClash(Trellis(nleaf, nspine, nhost)) <==> nleaf > 0 && nhost >= 254
  {
    GatewayClashIff(Count(nleaf), Count(nspine), Count(nhost));
  }

  /** When the MACs stay well formed. */
  lemma TrellisMacs(nleaf: int, nspine: int, nhost: int)
    ensures MacsWellFormed(Trellis(nleaf, nspine, nhost)) <==> Count(nleaf) * Count(nhost) <= 99
  {
    MacsWellFormedIff(Count(nleaf), Count(nspine), Count(nhost));
  }

  /** When every address `Trellis` hands out has octets of at most 255. */
  lemma TrellisOctets(nleaf: int, nspine: int, nhost: int)
    ensures OctetsInRange(Trellis(nleaf, nspine, nhost)) <==>
            nleaf <= 0 || nhost <= 0 || (nleaf <= 254 && nhost <= 255)
  {
    OctetsInRangeIff(Count(nleaf), Count(nspine), Count(nhost));
  }

  /** How `Trellis` attaches the hosts. */
  lemma TrellisAttachment(nleaf: int, nspine: int, nhost: int)
    ensures HomeLeafAttachment(Trellis(nleaf, nspine, nhost), Count(nleaf), Count(nspine), Count(nhost))
  {
    HomeLeafAttachmentHolds(Count(nleaf), Count(nspine), Count(nhost));
  }

  /** With no leaves (`range(nleaf)` empty) the topology is the spines alone. */
  lemma TrellisNoLeaves(nleaf: int, nspine: int, nhost: int)
    requires nleaf <= 0
    ensures Trellis(nleaf, nspine, nhost).switches == seq(Count(nspine), j requires 0 <= j => SpineSwitch(j))
    ensures Trellis(nleaf, nspine, nhost).hosts == []
    ensures Trellis(nleaf, nspine, nhost).links == []
  {
    NoLeavesExpected(Count(nspine), Count(nhost));
  }

  /** The numerals of the two-by-two-by-two example. */
  lemma ExampleNumerals()
    ensures Decimal(1) == "1" && Decimal(2) == "2" && Decimal(3) == "3" && Decimal(4) == "4"
    ensures Decimal(204) == "204" && Decimal(205) == "205"
    ensures Decimal(226) == "226" && Decimal(227) == "227"
  {
    assert DigitChar(0) == '0' && DigitChar(1) == '1' && DigitChar(2) == '2' && DigitChar(3) == '3';
    assert DigitChar(4) == '4' && DigitChar(5) == '5' && DigitChar(6) == '6' && DigitChar(7) == '7';
    assert Decimal(20) == "20" && Decimal(22) == "22";
  }

  /** The node names of the two-by-two-by-two example. */
  lemma ExampleNames()
    ensures LeafName(0) == "s204" && LeafName(1) == "s205"
    ensures SpineName(0) == "s226" && SpineName(1) == "s227"
    ensures HostName(1) == "h1" && HostName(2) == "h2" && HostName(3) == "h3" && HostName(4) == "h4"
  {
    ExampleNumerals();
  }

  lemma ExampleSwitches()
    ensures Expected(2, 2, 2).switches == [
      Switch("s204", ONOSBmv2Switch, 55204, "org.onosproject.pipelines.fabric", true),
      Switch("s205", ONOSBmv2Switch, 55205, "org.onosproject.pipelines.fabric", true),
      Switch("s226", ONOSBmv2Switch, 55226, "org.onosproject.pipelines.fabric", true),
      Switch("s227", ONOSBmv2Switch, 55227, "org.onosproject.pipelines.fabric", true)]
  {
    ExampleNames();
  }

  lemma ExampleHost1()
    ensures MakeHost(0, 0, 2) == Host("h1", RoutedHost, "00:aa:00:00:00:01", ["10.0.2.1/24"], "10.0.2.254")
    ensures AccessLink(0, 0, 2) == Link("s204", "h1")
  {
    assert HostId(0, 0, 2) == 1;
    ExampleNames();
    assert DigitChar(1) == '1' && DigitChar(2) == '2';
    assert Decimal(1) == "1" && Decimal(2) == "2";
    assert Zeros(1) == "0";
    assert Mac(1) == "00:aa:00:00:00:01";
    assert HostIp(2, 1) == "10.0.2.1/24";
    assert Gateway(2) == "10.0.2.254";
  }

  lemma ExampleHost2()
    ensures MakeHost(0, 1, 2) == Host("h2", RoutedHost, "00:aa:00:00:00:02", ["10.0.2.2/24"], "10.0.2.254")
    ensures AccessLink(0, 1, 2) == Link("s204", "h2")
  {
    assert HostId(0, 1, 2) == 2;
    ExampleNames();
    assert DigitChar(2) == '2';
    assert Decimal(2) == "2";
    assert Zeros(1) == "0";
    assert Mac(2) == "00:aa:00:00:00:02";
    assert HostIp(2, 2) == "10.0.2.2/24";
    assert Gateway(2) == "10.0.2.254";
  }

  lemma ExampleHost3()
    ensures MakeHost(1, 0, 2) == Host("h3", RoutedHost, "00:aa:00:00:00:03", ["10.0.3.1/24"], "10.0.3.254")
    ensures AccessLink(1, 0, 2) == Link("s205", "h3")
  {
    assert HostId(1, 0, 2) == 3;
    ExampleNames();
    assert DigitChar(3) == '3' && DigitChar(1) == '1';
    assert Decimal(3) == "3" && Decimal(1) == "1";
    assert Zeros(1) == "0";
    assert Mac(3) == "00:aa:00:00:00:03";
    assert HostIp(3, 1) == "10.0.3.1/24";
    assert Gateway(3) == "10.0.3.254";
  }

  lemma ExampleHost4()
    ensures MakeHost(1, 1, 2) == Host("h4", RoutedHost, "00:aa:00:00:00:04", ["10.0.3.2/24"], "10.0.3.254")
    ensures AccessLink(1, 1, 2) == Link("s205", "h4")
  {
    assert HostId(1, 1, 2) == 4;
    ExampleNames();
    assert DigitChar(4) == '4' && DigitChar(3) == '3' && DigitChar(2) == '2';
    assert Decimal(4) == "4" && Decimal(3) == "3" && Decimal(2) == "2";
    assert Zeros(1) == "0";
    assert Mac(4) == "00:aa:00:00:00:04";
    assert HostIp(3, 2) == "10.0.3.2/24";
    assert Gateway(3) == "10.0.3.254";
  }

  lemma ExampleSlot(k: nat)
    requires k < 4
    ensures HostsUpTo(2, 2)[k] == MakeHost(k / 2, k % 2, 2)
    ensures AccessLinksUpTo(2, 2)[k] == AccessLink(k / 2, k % 2, 2)
  {
  }

  lemma ExampleHosts()
    ensures Expected(2, 2, 2).hosts == [
      Host("h1", RoutedHost, "00:aa:00:00:00:01", ["10.0.2.1/24"], "10.0.2.254"),
      Host("h2", RoutedHost, "00:aa:00:00:00:02", ["10.0.2.2/24"], "10.0.2.254"),
      Host("h3", RoutedHost, "00:aa:00:00:00:03", ["10.0.3.1/24"], "10.0.3.254"),
      Host("h4", RoutedHost, "00:aa:00:00:00:04", ["10.0.3.2/24"], "10.0.3.254")]
  {
    ExampleSlot(0);
    ExampleSlot(1);
    ExampleSlot(2);
    ExampleSlot(3);
    ExampleHost1();
    ExampleHost2();
    ExampleHost3();
    ExampleHost4();
  }

  lemma ExampleMesh()
    ensures Mesh(LeafNames(2), SpineNames(2)) ==
            [Link("s204", "s226"), Link("s204", "s227"), Link("s205", "s226"), Link("s205", "s227")]
  {
    ExampleNames();
    var m := Mesh(LeafNames(2), SpineNames(2));
    assert m[0] == Link(LeafName(0), SpineName(0)) && m[1] == Link(LeafName(0), SpineName(1));
    assert m[2] == Link(LeafName(1), SpineName(0)) && m[3] == Link(LeafName(1), SpineName(1));
  }

  lemma ExampleAccess()
    ensures AccessLinksUpTo(2, 2) ==
            [Link("s204", "h1"), Link("s204", "h2"), Link("s205", "h3"), Link("s205", "h4")]
  {
    ExampleSlot(0);
    ExampleSlot(1);
    ExampleSlot(2);
    ExampleSlot(3);
    ExampleHost1();
    ExampleHost2();
    ExampleHost3();
    ExampleHost4();
  }

  lemma ExampleLinks()
    ensures Expected(2, 2, 2).links == [
      Link("s204", "s226"), Link("s204", "s227"), Link("s205", "s226"), Link("s205", "s227"),
      Link("s204", "h1"), Link("s204", "h2"), Link("s205", "h3"), Link("s205", "h4")]
  {
    ExampleMesh();
    ExampleAccess();
  }

  /** Two leaves, two spines, two hosts per leaf, spelled out in full. */
  lemma TwoByTwoByTwo()
    ensures Trellis(2, 2, 2).switches == [
      Switch("s204", ONOSBmv2Switch, 55204, "org.onosproject.pipelines.fabric", true),
      Switch("s205", ONOSBmv2Switch, 55205, "org.onosproject.pipelines.fabric", true),
      Switch("s226", ONOSBmv2Switch, 55226, "org.onosproject.pipelines.fabric", true),
      Switch("s227", ONOSBmv2Switch, 55227, "org.onosproject.pipelines.fabric", true)]
    ensures Trellis(2, 2, 2).hosts == [
      Host("h1", RoutedHost, "00:aa:00:00:00:01", ["10.0.2.1/24"], "10.0.2.254"),
      Host("h2", RoutedHost, "00:aa:00:00:00:02", ["10.0.2.2/24"], "10.0.2.254"),
      Host("h3", RoutedHost, "00:aa:00:00:00:03", ["10.0.3.1/24"], "10.0.3.254"),
      Host("h4", RoutedHost, "00:aa:00:00:00:04", ["10.0.3.2/24"], "10.0.3.254")]
    ensures Trellis(2, 2, 2).links == [
      Link("s204", "s226"), Link("s204", "s227"), Link("s205", "s226"), Link("s205", "s227"),
      Link("s204", "h1"), Link("s204", "h2"), Link("s205", "h3"), Link("s205", "h4")]
  {
    ExampleSwitches();
    ExampleHosts();
    ExampleLinks();
  }
}
