# Trellis topology generator, modelled in Dafny

The Trellis script (`trellisp4.py`) describes a leaf-spine fabric for the
Mininet emulator: `nleaf` leaf switches and `nspine` spine switches (BMv2
switches running ONOS's fabric pipeline), a link from every leaf to every
spine, and `nhost` routed hosts behind each leaf. Each host has a MAC
address, one address `10.0.t.f/24` in its leaf's /24 subnet, and that
subnet's .254 gateway. This project models the constructor `Trellis.__init__` and the
constants it uses, and proves what the script promises about the topology.

Layout:

- `format.dfy` (module `Format`): Python's `'%d'` rendering of a number
  (`Decimal`) and `str.zfill` (`ZFill`). One parser, `DecimalValue`,
  inverts both: it reads back `str(n)` (`DecimalRoundTrip`) and
  `str(n).zfill(w)` (`ZFillDecimal`). Distinctness of names and address
  texts follows from these round trips, for every id and octet value.
- `addressing.dfy` (module `Addressing`): the texts the script builds. These
  are switch and host names, `00:aa:00:00:00:<id>` MACs, `10.0.t.f/24`
  addresses and `10.0.t.254` gateways. For each one the model proves when two
  values coincide and when a value falls in a reserved range.
- `topo.dfy` (module `Topo`): the part of Mininet's `Topo` the script uses.
  `addSwitch`, `addHost` and `addLink` append to an immutable record of
  switches, hosts and links in registration order. The keyword arguments of
  each call are kept as fields.
- `layout.dfy` (module `Layout`): block arithmetic for leaf-major positions
  (`i * w + j` and back).
- `trellis.dfy` (module `TrellisTopo`): the generator. Each `for` loop
  becomes a fold whose contract gives the closed form of what it appends.
  `Trellis` is proved equal to `Expected`, a position-by-position reference
  layout. Counts are Python integers: `range(n)` with `n <= 0` runs no
  iterations, modelled by `Count`.
- `properties.dfy` (module `TrellisProperties`): each promise is a named
  predicate over a topology. Each predicate is proved about `Expected`, then
  lifted to `Trellis(nleaf, nspine, nhost)` for every integer triple.
  `TwoByTwoByTwo` spells out the whole topology for 2/2/2.

The script never checks its arguments, and the model states exactly where
its output stops being what a leaf-spine fabric needs:

- **Counts may be zero or negative.** `range(n)` with `n <= 0` runs no
  iterations, so a negative count behaves exactly like zero (`Count`).
- **Switch ids can collide.** The leaf and spine bases (trellisp4.py:14-15)
  are only 22 apart. Names and gRPC ports are distinct only when
  `nleaf <= 22` or there is no spine. With a 23rd leaf and a spine, leaf 22
  and spine 0 are both `s226` on gRPC port 55226, their mesh link joins
  `s226` to itself, and the hosts of leaf 22 are linked to `s226`
  (`SwitchesDistinctIff`, `SameTierLinkIff`, `AccessFromSpineNameIff`).
- **MACs are only two-digit below id 100.** `zfill(2)` keeps the last MAC
  field two digits only for host ids below 100 (`MacsWellFormedIff`). The
  MACs stay distinct for every id (`MacInjective`).
- **Host addresses can hit the gateway.** A leaf with 254 or more hosts
  gives host 254 the address `10.0.x.254`, which is also its gateway
  (`GatewayClashIff`).
- **Octets can pass 255.** The third octet is `leaf_idx + 2` and the fourth
  `host_idx + 1`. From 255 leaves, or 256 hosts per leaf, the script writes
  texts such as `10.0.256.1/24`, which are not IPv4 addresses
  (`OctetsInRangeIff`).

## Model

| member | source | states |
|---|---|---|
| `TrellisTopo.Trellis` | trellisp4.py:23-65 | The topology the constructor registers is the reference layout for `max(n, 0)` of each count. Switches are leaves then spines. Links are the leaf-major mesh, then one access link per host in host order. Hosts are leaf-major. |
| `TrellisTopo.AddLeafSwitches` | trellisp4.py:30-37 | The leaf loop appends exactly leaf 0 .. count-1, in index order, and leaves hosts and links unchanged. |
| `TrellisTopo.AddSpineSwitches` | trellisp4.py:39-46 | The spine loop appends exactly spine 0 .. count-1, in index order, and leaves hosts and links unchanged. |
| `TrellisTopo.AddSpineLinks` | trellisp4.py:50-51 | The inner link loop appends one link from the given leaf to each spine, in spine order, and nothing else. |
| `TrellisTopo.AddFabricLinks` | trellisp4.py:49-51 | The nested link loops append the leaf-major mesh: position k joins leaf k / nspine to spine k % nspine. Switches and hosts are unchanged. |
| `TrellisTopo.MeshStep` | trellisp4.py:49-51 | The mesh over n+1 leaves is the mesh over the first n, followed by the last leaf's links to every spine in order. |
| `TrellisTopo.AddLeafHosts` | trellisp4.py:57-65 | One leaf's host loop appends its hosts in host order. It appends, in the same order, one link from that leaf to the name `addHost` returned. |
| `TrellisTopo.AddHosts` | trellisp4.py:56-65 | The nested host loops append the hosts leaf-major (position k is host k % nhost of leaf k / nhost) and their access links at the same positions. Switches are unchanged. |
| `TrellisTopo.HostsStep` | trellisp4.py:56-65 | One more leaf appends one block of `nhost` hosts and one block of access links after those of the earlier leaves. |
| `Format.Decimal` | trellisp4.py:32 | `'%d' % n` is a non-empty string of digits that starts with '0' only for n == 0; `DecimalRoundTrip` reads it back. |
| `Format.ZFill` | trellisp4.py:60 | `s.zfill(w)` is s when s already has w characters; otherwise it has exactly w characters: s after the padding zeros, or, when s starts with '+' or '-', that sign first, then the zeros, then the rest of s. |
| `Addressing.SwitchNameParts` | trellisp4.py:32 | A switch name `'s%d' % id` is 's' followed by a numeral that reads back as id. |
| `Addressing.HostNameParts` | trellisp4.py:64 | A host name `'h%d' % id` is 'h' followed by a numeral that reads back as id. |
| `Addressing.MacParts` | trellisp4.py:60 | A MAC is `00:aa:00:00:00:` followed by a field of at least two digits that reads back as the host id. |
| `Addressing.AddressParts` | trellisp4.py:61-62 | An address `10.0.t.f/24` and the gateway `10.0.t.254` both start with the subnet text `10.0.t.`, whose numeral reads back as t. The address continues with a numeral that reads back as f and ends in `/24`; the gateway continues with `254`. |
| `Topo.AddSwitch` | trellisp4.py:32-36 | `addSwitch` registers the switch after all earlier ones and leaves hosts and links unchanged. |
| `Topo.AddHost` | trellisp4.py:64 | `addHost` registers the host after all earlier ones, leaves switches and links unchanged, and returns the host's name. |
| `Topo.AddLink` | trellisp4.py:51 | `addLink` registers the link after all earlier ones and leaves switches and hosts unchanged. |
| `TrellisTopo.Count` | trellisp4.py:30 | `range(n)` runs n iterations for n >= 0 and none for n <= 0. |
| `TrellisTopo.HostRecord` | trellisp4.py:58-64 | The host registered for (leaf i, host h) is a `RoutedHost`. Its name and its MAC both read back as the id `i*nhost+h+1`. It has one address; that address and its gateway lie in the subnet `10.0.(i+2).`, and neither lies in 10.0.1.0/24. |
| `TrellisTopo.AccessLinkJoins` | trellisp4.py:64-65 | The access link joins the host's leaf to the name `addHost` returned for the host just registered, and never joins a node to itself. |
| `Format.DecimalRoundTrip` | trellisp4.py:32 | Parsing the `%d` rendering of n gives back n. |
| `Format.DecimalInjective` | trellisp4.py:32 | Two numbers render to the same numeral if and only if they are equal. |
| `Format.ZFillDecimal` | trellisp4.py:60 | `str(n).zfill(w)` is all digits, at least w long, and denotes n. |
| `Format.ZFillDecimalInjective` | trellisp4.py:60 | `str(a).zfill(w) == str(b).zfill(w)` if and only if a == b, for every width. |
| `Addressing.NamesInjective` | trellisp4.py:64-65 | `s%d` names are equal if and only if their numbers are, and likewise `h%d` names. A switch name is never a host name. |
| `Addressing.MacInjective` | trellisp4.py:60 | Two host MACs are equal if and only if the host ids are equal, at any id. |
| `Addressing.MacOutsideReservedBlock` | trellisp4.py:54-60 | No generated MAC starts with `00:00:00:00:00:`. |
| `Addressing.MacWellFormedIff` | trellisp4.py:60 | The MAC is 17 characters long if and only if the host id is below 100. Below 100 its last field is two digits. |
| `Addressing.HostIpInjective` | trellisp4.py:61 | Two `10.0.t.f/24` addresses are equal if and only if both octets are. |
| `Addressing.GatewayInjective` | trellisp4.py:62 | Two `10.0.t.254` gateways are equal if and only if the third octets are. |
| `Addressing.ReservedSubnetIff` | trellisp4.py:53 | An address `10.0.t.` followed by more text lies in 10.0.1.0/24 if and only if t is 1. |
| `Addressing.GatewayClashIff` | trellisp4.py:61-62 | A host address equals a gateway's address with /24 if and only if the third octets agree and the fourth octet is 254. |
| `TrellisProperties.HostAt` | trellisp4.py:59-65 | Host h of leaf i is at position `i*nhost+h` of the host list and its access link at the same offset after the mesh. |
| `TrellisProperties.HostAtPosition` | trellisp4.py:56-59 | Every host position k is host h of some leaf i, with `i*nhost+h+1 == k+1`. |
| `TrellisProperties.FabricAt` | trellisp4.py:49-51 | The link from leaf i to spine j is at position `i*nspine+j`. |
| `TrellisProperties.FabricAtPosition` | trellisp4.py:49-51 | Every mesh position is the link of exactly one leaf-spine pair. |
| `TrellisProperties.SwitchesDistinctIff` | trellisp4.py:14-17 | Switch names are pairwise distinct if and only if `nleaf <= 22` or `nspine == 0`, and the same holds for gRPC ports. |
| `TrellisProperties.FullMeshHolds` | trellisp4.py:49-51 | Every leaf-spine pair is linked at position `i*nspine+j` and at no other mesh position. Mesh links run leaf to spine, and no later link ends (as node2) at a spine's name. |
| `TrellisProperties.SameTierLinkIff` | trellisp4.py:30-51 | Some link joins two leaves or two spines if and only if `nleaf > 22` and `nspine > 0`. |
| `TrellisProperties.AccessFromSpineNameIff` | trellisp4.py:58-65 | Some link after the mesh starts at a spine's name if and only if `nleaf > 22`, `nspine > 0` and `nhost > 0`. |
| `TrellisProperties.HostPlanHolds` | trellisp4.py:56-64 | There are `nleaf*nhost` hosts, and the host at position k is `h(k+1)`, so the ids are exactly 1..nleaf*nhost. Host h of leaf i has id `i*nhost+h+1`, its MAC, address 10.0.(i+2).(h+1)/24 and gateway 10.0.(i+2).254. |
| `TrellisProperties.DistinctHostsHolds` | trellisp4.py:59-64 | No two hosts share a name, a MAC or an interface address. |
| `TrellisProperties.GatewayPerLeafHolds` | trellisp4.py:62-65 | Two hosts have the same gateway if and only if their access links go to the same leaf. |
| `TrellisProperties.GatewayInSubnetHolds` | trellisp4.py:61-62 | Each host has one address, in the /24 subnet whose .254 address is its gateway. |
| `TrellisProperties.ReservedRangesAvoided` | trellisp4.py:53-62 | No host address or gateway lies in 10.0.1.0/24, and no MAC lies in 00:00:00:00:00:xx. |
| `TrellisProperties.GatewayClashIff` | trellisp4.py:61-62 | Some host's address is some gateway's address if and only if `nleaf > 0` and `nhost >= 254`. |
| `TrellisProperties.MacsWellFormedIff` | trellisp4.py:59-60 | Every MAC is 17 characters with a two-digit last field if and only if `nleaf*nhost <= 99`. |
| `TrellisProperties.OctetsInRangeIff` | trellisp4.py:61-62 | Every host's address is `10.0.a.b/24` and its gateway `10.0.a.254` with a, b <= 255 if and only if there are no hosts, or `nleaf <= 254` and `nhost <= 255`. |
| `TrellisProperties.HomeLeafAttachmentHolds` | trellisp4.py:64-65 | Host h of leaf i is linked to leaf i at position `nleaf*nspine + i*nhost + h`. A host's name is an endpoint of that link and of no other. |
| `TrellisProperties.TouchesIff` | trellisp4.py:64-65 | Host k's name is an endpoint of link m if and only if m is host k's access link. |
| `TrellisProperties.NoSpinesExpected` | trellisp4.py:39-51 | With no spines there are as many links as hosts, and no link ends at a switch. |
| `TrellisProperties.NoLeavesExpected` | trellisp4.py:30-65 | With no leaves the topology is the spines alone, with no hosts and no links. |
| `TrellisProperties.TrellisSwitches` | trellisp4.py:30-46 | For every integer triple: the switch plan holds, and names and gRPC ports are distinct if and only if `nleaf <= 22` or `nspine <= 0`. |
| `TrellisProperties.TrellisFabric` | trellisp4.py:48-51 | For every integer triple: the full mesh holds. A same-tier link exists if and only if `nleaf > 22` and `nspine > 0`. With `nspine <= 0` no link joins two switches. An access link starts at a spine's name if and only if `nleaf > 22`, `nspine > 0` and `nhost > 0`. |
| `TrellisProperties.TrellisHosts` | trellisp4.py:56-64 | For every integer triple: the host plan holds and all names, MACs and addresses are distinct. |
| `TrellisProperties.TrellisSubnets` | trellisp4.py:53-62 | For every integer triple: there is one gateway per leaf, each host's address is in its gateway's subnet, and the reserved ranges are avoided. |
| `TrellisProperties.TrellisGatewayClash` | trellisp4.py:61-62 | For every integer triple: a host address equals a gateway address if and only if `nleaf > 0` and `nhost >= 254`. |
| `TrellisProperties.TrellisMacs` | trellisp4.py:60 | For every integer triple: all MACs are well formed if and only if there are at most 99 hosts. |
| `TrellisProperties.TrellisOctets` | trellisp4.py:61-62 | For every integer triple: all octets are at most 255 if and only if `nleaf <= 0`, `nhost <= 0`, or `nleaf <= 254` and `nhost <= 255`. |
| `TrellisProperties.TrellisAttachment` | trellisp4.py:65 | For every integer triple: each host has exactly one link, and it goes to its home leaf, after the mesh and in host order. |
| `TrellisProperties.TrellisNoLeaves` | trellisp4.py:30-65 | With `nleaf <= 0` the topology is `max(nspine, 0)` spines, no hosts and no links. |
| `TrellisProperties.TwoByTwoByTwo` | trellisp4.py:30-65 | `Trellis(2, 2, 2)` is exactly s204, s205, s226, s227; hosts h1..h4 with MACs ..:01..:04, addresses 10.0.2.1, 10.0.2.2, 10.0.3.1, 10.0.3.2 and gateways 10.0.2.254 / 10.0.3.254; the four mesh links leaf-major, then h1, h2 to s204 and h3, h4 to s205. |

## Left out

- `main`, the argument parser and `setLogLevel` (trellisp4.py:71-98) are left out. They start the emulator, connect a remote controller and run the CLI, which is I/O with no logic of its own.
- The `topos` dictionary (trellisp4.py:68) is left out. It only registers the class under a name for Mininet's command line.
- The Mininet runtime is not part of this model. That covers what `Topo.__init__`, `addSwitch`, `addHost` and `addLink` do inside Mininet, and what happens when the network starts. The model records each call's arguments in order.
- Mininet keeps one graph node per name, so a second `addSwitch('s226', ...)` changes the first node's options. The model keeps both registrations, which is what makes the collision visible.
- `ONOSBmv2Switch` and `RoutedHost` (imported from `bmv2` and `routinglib`) are not part of this model; the classes are recorded as labels.
- Non-integer counts are not modelled: the parser converts each count with `int`.
- Addresses and MACs are modelled as the texts the script writes, not as 32-bit or 48-bit numbers. Where a text stops being a valid address (an octet above 255, a MAC field of three digits) the model states the exact condition (`OctetsInRangeIff`, `MacsWellFormedIff`) instead of excluding those inputs.
