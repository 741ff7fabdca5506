/** The part of Mininet's `Topo` that the Trellis script uses: a record of
    the switches, hosts and links registered so far, in registration order.
    `addSwitch`, `addHost` and `addLink` become appends; what Mininet later
    does with the record (namespaces, processes, controller sessions) is not
    part of this model. */
module Topo {

  /** The node classes the script passes as `cls=`; they are only labels here. */
  datatype NodeClass = ONOSBmv2Switch | RoutedHost

  /** The keyword arguments of one `addSwitch` call. */
  datatype Switch = Switch(name: string, cls: NodeClass, grpcPort: int, pipeconf: string, portcfg: bool)

  /** The keyword arguments of one `addHost` call. */
  datatype Host = Host(name: string, cls: NodeClass, mac: string, ips: seq<string>, gateway: string)

  /** One `addLink(node1, node2)` call, endpoints by node name. */
  datatype Link = Link(node1: string, node2: string)

  datatype Topology = Topology(switches: seq<Switch>, hosts: seq<Host>, links: seq<Link>)

  /** The record right after `Topo.__init__`. */
  const Empty: Topology := Topology([], [], [])

  /** `addSwitch`: the switch is registered after all earlier ones, and
      nothing else changes. */
  function AddSwitch(t: Topology, s: Switch): (r: Topology)
    ensures |r.switches| == |t.switches| + 1
    ensures t.switches <= r.switches && r.switches[|t.switches|] == s
    ensures r.hosts == t.hosts && r.links == t.links
  {
    t.(switches := t.switches + [s])
  }

  /** `addHost`: the host is registered after all earlier ones, nothing
      else changes, and the call returns the new node's name, which the
      script then passes to `addLink`. */
  function AddHost(t: Topology, h: Host): (r: (Topology, string))
    ensures r.1 == h.name
    ensures |r.0.hosts| == |t.hosts| + 1
    ensures t.hosts <= r.0.hosts && r.0.hosts[|t.hosts|] == h
    ensures r.0.switches == t.switches && r.0.links == t.links
  {
    (t.(hosts := t.hosts + [h]), h.name)
  }

  /** `addLink(node1, node2)`: the link is registered after all earlier
      ones, and nothing else changes. */
  function AddLink(t: Topology, node1: string, node2: string): (r: Topology)
    ensures |r.links| == |t.links| + 1
    ensures t.links <= r.links && r.links[|t.links|] == Link(node1, node2)
    ensures r.switches == t.switches && r.hosts == t.hosts
  {
    t.(links := t.links + [Link(node1, node2)])
  }

  /** True when `name` is one of the two endpoints of `l`. */
  predicate Touches(l: Link, name: string) {
    l.node1 == name || l.node2 == name
  }
}
