/** The generated Clos topologies: racks of hosts under rack switches, each rack switch
    linked to every cluster switch, each cluster switch to every aggregation switch. */
module Clos {
  import opened Common
  import opened Division
  import opened Digraph
  import opened Links
  import opened RouteSearch
  import opened Routing
  import opened Loading

  /** Hosts in all, and hosts in a rack. */
  datatype Shape = Shape(hosts: nat, perRack: nat) {
    ghost predicate Valid() { perRack > 0 && hosts % perRack == 0 }
    function Racks(): nat requires perRack > 0 { hosts / perRack }
    function Aggregations(): nat requires perRack > 0 { Racks() / 2 }
    function FirstCluster(): nat requires perRack > 0 { hosts + Racks() }
    function FirstAggregation(): nat requires perRack > 0 { hosts + 2 * Racks() }
    function NodeCount(): nat requires perRack > 0 { hosts + 2 * Racks() + Aggregations() }
    /** The switch of a host's rack. */
    function RackOf(v: nat): nat requires perRack > 0 { hosts + v / perRack }
    predicate IsHost(v: nat) { v < hosts }
    predicate IsRack(v: nat) requires perRack > 0 { hosts <= v < FirstCluster() }
    predicate IsCluster(v: nat) requires perRack > 0 { FirstCluster() <= v < FirstAggregation() }
    predicate IsAggregation(v: nat) requires perRack > 0 { FirstAggregation() <= v < NodeCount() }

    /** The links the topology is meant to have, lower node first. */
    predicate HasLink(a: nat, b: nat) requires perRack > 0 {
      || (IsHost(a) && b == RackOf(a))
      || (IsRack(a) && IsCluster(b))
      || (IsCluster(a) && IsAggregation(b))
    }
  }

  datatype Error = ZeroDivision | NotDivisible

  /** The file: the three counts of the header, the switch numbers, and one pair per link. */
  datatype Topology = Topology(nodes: nat, switchCount: nat, linkCount: nat, switches: seq<nat>, links: seq<(nat, nat)>)

  datatype Result<+T> = Ok(value: T) | Err(error: Error)

  /** The rack number goes up exactly at the multiples of the rack size. */
  lemma RackAdvances(i: nat, h: nat)
    requires h > 0
    ensures (i + 1) / h == i / h + if (i + 1) % h == 0 then 1 else 0
  {
    var q, r := i / h, i % h;
    assert i == h * q + r;
    if r + 1 == h {
      assert i + 1 == h * (q + 1);
      QuotientRemainder(i + 1, h, q + 1, 0);
    } else {
      QuotientRemainder(i + 1, h, q, r + 1);
    }
  }

  lemma HostsInRacks(s: Shape, v: nat)
    requires s.Valid() && v < s.hosts
    ensures s.IsRack(s.RackOf(v))
  {
    var h := s.perRack;
    var mine, all := v / h, s.hosts / h;
    assert s.hosts == h * all && v == h * mine + v % h;
    assert mine >= all ==> h * mine >= h * all;
  }

  /** Host links: the rack number goes up at every multiple of the rack size. */
  method HostLinks(s: Shape) returns (links: seq<(nat, nat)>)
    requires s.Valid()
    ensures |links| == s.hosts
    ensures forall i :: 0 <= i < |links| ==> links[i] == (i, s.RackOf(i))
  {
    links := [];
    var rack: int := s.hosts - 1;
    for i := 0 to s.hosts
      invariant |links| == i && rack == if i == 0 then s.hosts - 1 else s.RackOf(i - 1)
      invariant forall j :: 0 <= j < i ==> links[j] == (j, s.RackOf(j))
    {
      if i > 0 {
        RackAdvances(i - 1, s.perRack);
      } else {
        QuotientRemainder(0, s.perRack, 0, 0);
      }
      if i % s.perRack == 0 {
        rack := rack + 1;
      }
      links := links + [(i, rack)];
    }
  }

  /** All links between two ranges of nodes, row by row. */
  method FullMesh(fromA: nat, toA: nat, fromB: nat, toB: nat) returns (links: seq<(nat, nat)>)
    requires fromA <= toA && fromB <= toB
    ensures |links| == (toA - fromA) * (toB - fromB)
    ensures forall a, b :: (a, b) in links <==> fromA <= a < toA && fromB <= b < toB
  {
    links := [];
    for i := fromA to toA
      invariant |links| == (i - fromA) * (toB - fromB)
      invariant forall a, b :: (a, b) in links <==> fromA <= a < i && fromB <= b < toB
    {
      ghost var before := links;
      for j := fromB to toB
        invariant |links| == |before| + (j - fromB)
        invariant forall a, b :: (a, b) in links <==> (a, b) in before || (a == i && fromB <= b < j)
      {
        links := links + [(i, j)];
      }
      assert (i + 1 - fromA) * (toB - fromB) == (i - fromA) * (toB - fromB) + (toB - fromB);
    }
  }

  /** The file in plain numbers: as many rack switches as racks, as many cluster switches, half as
      many aggregation switches; host `i` under the switch of rack `i / perRack`, and all links
      between one layer of switches and the next. */
  ghost predicate Described(totalHost: nat, perRack: nat, t: Topology)
    requires perRack > 0
  {
    var racks := totalHost / perRack;
    var cluster, top := totalHost + racks, totalHost + 2 * racks;
    && t.nodes == totalHost + racks + racks + racks / 2 && t.switchCount == racks + racks + racks / 2
    && t.linkCount == |t.links| == totalHost + racks * racks + racks * (racks / 2)
    && (forall a: nat, b: nat :: (a, b) in t.links <==>
          || (a < totalHost && b == totalHost + a / perRack)
          || (totalHost <= a < cluster <= b < top)
          || (cluster <= a < top <= b < t.nodes))
  }

  /** The whole file. The header's link count is the number of link lines that follow. */
  method Generate(totalHost: nat, perRack: nat) returns (r: Result<Topology>)
    ensures r == Err(ZeroDivision) <==> perRack == 0
    ensures r == Err(NotDivisible) <==> perRack > 0 && totalHost % perRack != 0
    ensures r.Ok? ==>
              var s, t := Shape(totalHost, perRack), r.value;
              && s.Valid() && t.nodes == s.NodeCount() && t.switchCount == t.nodes - totalHost
              && t.linkCount == |t.links|
              && (forall a: nat, b: nat :: (a, b) in t.links <==> s.HasLink(a, b))
              && |t.switches| == t.switchCount && forall i :: 0 <= i < |t.switches| ==> t.switches[i] == totalHost + i
    ensures r.Ok? ==> Described(totalHost, perRack, r.value)
  {
    if perRack == 0 {
      return Err(ZeroDivision);
    }
    if totalHost % perRack != 0 {
      return Err(NotDivisible);
    }
    var s := Shape(totalHost, perRack);
    var rtsw := totalHost / perRack;
    var ctsw := rtsw;
    var atsw := ctsw / 2;
    var totalNode := totalHost + rtsw + ctsw + atsw;
    var totalLink := totalHost + rtsw * ctsw + ctsw * atsw;
    var switches := [];
    for i := totalHost to totalNode
      invariant |switches| == i - totalHost && forall j :: 0 <= j < |switches| ==> switches[j] == totalHost + j
    {
      switches := switches + [i];
    }
    var up := HostLinks(s);
    var middle := FullMesh(totalHost, totalHost + rtsw, totalHost + rtsw, totalHost + rtsw + ctsw);
    var top := FullMesh(totalHost + rtsw, totalHost + rtsw + ctsw, totalHost + rtsw + ctsw, totalNode);
    forall a: nat, b: nat ensures (a, b) in up + middle + top <==> s.HasLink(a, b) {
      assert (a, b) in up <==> s.IsHost(a) && b == s.RackOf(a) by {
        if s.IsHost(a) && b == s.RackOf(a) {
          assert up[a] == (a, b);
        }
      }
    }
    r := Ok(Topology(totalNode, totalNode - totalHost, totalLink, switches, up + middle + top));
  }

  // ----- The network of a topology

  /** The up-links are exactly the topology's, in both directions. */
  ghost predicate IsNetworkOf(s: Shape, links: LinkMap)
    requires s.perRack > 0
  {
    forall a, b :: UpLink(links, a, b) <==> s.HasLink(a, b) || s.HasLink(b, a)
  }

  ghost function Switches(s: Shape): set<Node>
    requires s.perRack > 0
  {
    set v: nat | v < s.NodeCount() && !s.IsHost(v)
  }

  /** How far `v` is from the host `x`. */
  function HopCount(s: Shape, x: nat, v: nat): nat
    requires s.perRack > 0
  {
    if v == x then 0
    else if v == s.RackOf(x) then 1
    else if s.IsHost(v) then if s.RackOf(v) == s.RackOf(x) then 2 else 4
    else if s.IsCluster(v) then 2
    else 3
  }

  ghost function HopCounts(s: Shape, x: nat): map<Node, nat>
    requires s.perRack > 0
  {
    map v: nat | v < s.NodeCount() :: HopCount(s, x, v)
  }

  lemma {:induction false} StepCounts(s: Shape, links: LinkMap, x: nat, u: nat, v: nat)
    requires s.Valid() && IsNetworkOf(s, links) && x < s.hosts
    requires UpLink(links, u, v) && (u == x || u in Switches(s))
    ensures v < s.NodeCount() && HopCount(s, x, v) <= HopCount(s, x, u) + 1
  {
    HostsInRacks(s, x);
    if s.IsHost(u) {
      HostsInRacks(s, u);
    }
    if s.IsHost(v) {
      HostsInRacks(s, v);
    }
    assert s.HasLink(u, v) || s.HasLink(v, u);
  }

  lemma {:induction false} WalksAreLonger(s: Shape, links: LinkMap, x: nat, v: nat, k: nat)
    requires s.Valid() && IsNetworkOf(s, links) && x < s.hosts
    ensures Reach(links, Switches(s), x, v, k) ==> v < s.NodeCount() && HopCount(s, x, v) <= k
    decreases k
  {
    if k == 0 {
    } else if Reach(links, Switches(s), x, v, k) {
      var u :| UpLink(links, u, v) && Reach(links, Switches(s), x, u, k - 1) && (k == 1 || u in Switches(s));
      WalksAreLonger(s, links, x, u, k - 1);
      assert k == 1 ==> Reach(links, Switches(s), x, u, 0);
      StepCounts(s, links, x, u, v);
    }
  }

  lemma {:induction false} WalkStep(s: Shape, links: LinkMap, x: nat, u: nat, v: nat, k: nat)
    requires s.Valid() && IsNetworkOf(s, links) && Reach(links, Switches(s), x, u, k)
    requires (s.HasLink(u, v) || s.HasLink(v, u)) && (k == 0 || u in Switches(s))
    ensures Reach(links, Switches(s), x, v, k + 1)
  {
    assert UpLink(links, u, v);
  }

  /** A walk of the stated length exists: up to the rack switch, up to a cluster switch,
      and down again. */
  lemma {:induction false} WalkExists(s: Shape, links: LinkMap, x: nat, v: nat)
    requires s.Valid() && IsNetworkOf(s, links) && x < s.hosts && v < s.NodeCount() && s.Racks() >= 1
    ensures Reach(links, Switches(s), x, v, HopCount(s, x, v))
  {
    var rack, cluster := s.RackOf(x), s.FirstCluster();
    HostsInRacks(s, x);
    assert Reach(links, Switches(s), x, x, 0);
    WalkStep(s, links, x, x, rack, 0);
    if v == x || v == rack {
    } else if s.IsHost(v) && s.RackOf(v) == rack {
      WalkStep(s, links, x, rack, v, 1);
    } else if s.IsCluster(v) {
      WalkStep(s, links, x, rack, v, 1);
    } else {
      WalkStep(s, links, x, rack, cluster, 1);
      if s.IsHost(v) {
        HostsInRacks(s, v);
        WalkStep(s, links, x, cluster, s.RackOf(v), 2);
        WalkStep(s, links, x, s.RackOf(v), v, 3);
      } else {
        WalkStep(s, links, x, cluster, v, 2);
      }
    }
  }

  /** The distances the routing search must find from any host. */
  lemma {:induction false} ClosDistances(s: Shape, links: LinkMap, x: nat)
    requires s.Valid() && IsNetworkOf(s, links) && x < s.hosts
    ensures Distances(links, Switches(s), x, HopCounts(s, x))
  {
    HostsInRacks(s, x);
    forall v | v in HopCounts(s, x) ensures Reach(links, Switches(s), x, v, HopCounts(s, x)[v]) {
      WalkExists(s, links, x, v);
    }
    forall v, k: nat | Reach(links, Switches(s), x, v, k) ensures v in HopCounts(s, x) && HopCounts(s, x)[v] <= k {
      WalksAreLonger(s, links, x, v, k);
    }
  }

  /** Between hosts: two hops within a rack, four across racks. */
  lemma {:induction false} HostDistances(s: Shape, links: LinkMap, x: nat, y: nat, dis: map<Node, nat>)
    requires s.Valid() && IsNetworkOf(s, links) && x < s.hosts && y < s.hosts && x != y
    requires Distances(links, Switches(s), x, dis)
    ensures y in dis && dis[y] == if s.RackOf(x) == s.RackOf(y) then 2 else 4
  {
    ClosDistances(s, links, x);
    DistancesUnique(links, Switches(s), x, dis, HopCounts(s, x));
    HostsInRacks(s, x);
    assert y < s.NodeCount();
    var counts := HopCounts(s, x);
    assert counts[y] == HopCount(s, x, y);
  }

  /** The next hops of a rack switch towards a host of another rack are all the cluster
      switches, each once; towards a host of its own rack, that host alone. */
  lemma {:induction false} RackSwitchHops(s: Shape, links: LinkMap, t: HopTable, x: nat, rack: nat)
    requires s.Valid() && IsNetworkOf(s, links) && x < s.hosts && s.IsRack(rack)
    requires Routed(links, Switches(s), t, x)
    ensures Distinct(HopsAt(t, rack, x))
    ensures rack != s.RackOf(x) ==> forall u :: u in HopsAt(t, rack, x) <==> s.IsCluster(u)
    ensures rack == s.RackOf(x) ==> forall u :: u in HopsAt(t, rack, x) <==> u == x
  {
    var dis :| RoutedBy(links, Switches(s), t, x, dis);
    ClosDistances(s, links, x);
    DistancesUnique(links, Switches(s), x, dis, HopCounts(s, x));
    HostsInRacks(s, x);
    forall u ensures u in HopsAt(t, rack, x) <==> if rack == s.RackOf(x) then u == x else s.IsCluster(u) {
      assert u in HopsAt(t, rack, x) <==> IsNextHop(links, Switches(s), x, dis, rack, u);
      assert UpLink(links, u, rack) <==> s.HasLink(u, rack) || s.HasLink(rack, u);
    }
  }

  lemma {:induction false} NeverThroughAggregation(s: Shape, links: LinkMap, x: nat, hops: map<Node, seq<Node>>,
      p: seq<Node>, i: nat)
    requires s.Valid() && IsNetworkOf(s, links) && x < s.hosts
        && Installed(links, Switches(s), x, HopCounts(s, x), hops)
    requires Forwarded(hops, p) && p[0] < s.hosts && i < |p|
    ensures !s.IsAggregation(p[i])
  {
    HostsInRacks(s, x);
    HostsInRacks(s, p[0]);
    var dis := HopCounts(s, x);
    HopsGetCloser(links, Switches(s), x, dis, hops, p, i);
    assert dis[p[i]] == HopCount(s, x, p[i]) && dis[p[0]] == HopCount(s, x, p[0]);
    assert HopCount(s, x, p[i]) + i <= 4;
    assert i == 1 ==> s.HasLink(p[1], p[0]) || s.HasLink(p[0], p[1]);
  }

  /** However the equal-cost choices fall, a packet between hosts never visits an
      aggregation switch. */
  lemma {:induction false} AggregationUnused(s: Shape, links: LinkMap, t: HopTable, x: nat, p: seq<Node>, i: nat)
    requires s.Valid() && IsNetworkOf(s, links) && Symmetric(links) && x < s.hosts && Routed(links, Switches(s), t, x)
    requires Travels(t, x, p) && p[0] < s.hosts && i < |p|
    ensures !s.IsAggregation(p[i])
  {
    var dis :| RoutedBy(links, Switches(s), t, x, dis);
    ClosDistances(s, links, x);
    DistancesUnique(links, Switches(s), x, dis, HopCounts(s, x));
    var hops := map v | v in dis :: HopsAt(t, v, x);
    assert forall v :: v in hops ==> hops[v] == HopsAt(t, v, x);
    TravelsForwarded(links, Switches(s), t, x, dis, hops, p);
    NeverThroughAggregation(s, links, x, hops, p, i);
  }

  // ----- From the script to the forwarding tables

  /** The link lines of the file, all with the delay and rate the script was given. */
  function Lines(links: seq<(nat, nat)>, delay: nat, bw: nat): (lines: seq<LinkLine>)
    ensures |lines| == |links|
    ensures forall i :: 0 <= i < |lines| ==> lines[i] == LinkLine(links[i].0, links[i].1, delay, bw)
  {
    seq(|links|, i requires 0 <= i < |links| => LinkLine(links[i].0, links[i].1, delay, bw))
  }

  function AllNodes(n: nat): (nodes: seq<Node>)
    ensures |nodes| == n && (forall i :: 0 <= i < n ==> nodes[i] == i) && forall v: nat :: v in nodes <==> v < n
  {
    if n == 0 then [] else AllNodes(n - 1) + [n - 1]
  }

  /** A link map loaded from the topology's lines is the topology's network. */
  lemma LoadedIsNetwork(s: Shape, pairs: seq<(nat, nat)>, lines: seq<LinkLine>, links: LinkMap)
    requires s.perRack > 0 && forall a: nat, b: nat :: (a, b) in pairs <==> s.HasLink(a, b)
    requires |lines| == |pairs| && forall i :: 0 <= i < |lines| ==> (lines[i].src, lines[i].dst) == pairs[i]
    requires LoadedFrom(links, lines)
    ensures IsNetworkOf(s, links)
  {
    forall a: nat, b: nat ensures UpLink(links, a, b) <==> s.HasLink(a, b) || s.HasLink(b, a) {
      LoadedUpLinks(links, lines, a, b);
      if i :| 0 <= i < |lines| && lines[i].Joins(a, b) {
        assert pairs[i] in pairs;
      }
      if s.HasLink(a, b) {
        var i :| 0 <= i < |pairs| && pairs[i] == (a, b);
        assert lines[i].Joins(a, b);
      }
      if s.HasLink(b, a) {
        var i :| 0 <= i < |pairs| && pairs[i] == (b, a);
        assert lines[i].Joins(a, b);
      }
    }
  }

  /** The links are the topology's, with distinct interface numbers at every node, and routes
      and tables agree with them. */
  ghost predicate Running(s: Shape, links: LinkMap, hops: HopTable, tables: ForwardingTables)
    requires s.perRack > 0
  {
    && IsNetworkOf(s, links) && Symmetric(links) && FacesDistinct(links)
    && AllRouted(links, Switches(s), hops, AllNodes(s.NodeCount()))
    && TablesMatch(links, hops, tables, AllNodes(s.NodeCount()))
  }

  lemma SwitchesListed(s: Shape, listed: seq<nat>)
    requires s.perRack > 0 && |listed| == s.NodeCount() - s.hosts
    requires forall i :: 0 <= i < |listed| ==> listed[i] == s.hosts + i
    ensures ToSet(listed) == Switches(s)
  {
    forall v: nat | v in Switches(s) ensures v in listed {
      assert listed[v - s.hosts] == v;
    }
  }

  /** Generate a topology, read it in, and set up routes and tables. */
  method SetUp(totalHost: nat, perRack: nat, delay: nat, bw: nat, payload: nat) returns (r: Result<Network>)
    requires bw > 0
    ensures r == Err(ZeroDivision) <==> perRack == 0
    ensures r == Err(NotDivisible) <==> perRack > 0 && totalHost % perRack != 0
    ensures r.Ok? ==>
              var s, net := Shape(totalHost, perRack), r.value;
              s.Valid() && fresh(net) && net.switches == Switches(s) && Running(s, net.links, net.nextHop, net.tables)
  {
    var file := Generate(totalHost, perRack);
    if file.Err? {
      return Err(file.error);
    }
    var s, t := Shape(totalHost, perRack), file.value;
    var net := new Network(ToSet(t.switches), payload);
    var lines := Lines(t.links, delay, bw);
    LoadLinks(net, lines);
    LoadedIsNetwork(s, t.links, lines, net.links);
    LoadedFacesDistinct(net.links, lines);
    SwitchesListed(s, t.switches);
    net.Configure(AllNodes(t.nodes));
    return Ok(net);
  }

  lemma LinkInside(s: Shape, a: nat, b: nat)
    requires s.Valid() && (s.HasLink(a, b) || s.HasLink(b, a))
    ensures a < s.NodeCount() && b < s.NodeCount()
  {
    if s.IsHost(a) {
      HostsInRacks(s, a);
    }
    if s.IsHost(b) {
      HostsInRacks(s, b);
    }
  }

  lemma HopInside(s: Shape, links: LinkMap, hops: HopTable, x: nat, v: nat, u: nat)
    requires s.Valid() && IsNetworkOf(s, links) && u in HopsAt(hops, v, x)
    ensures Routed(links, Switches(s), hops, x) ==> u < s.NodeCount()
  {
    if dis :| RoutedBy(links, Switches(s), hops, x, dis) {
      assert ExactHops(links, Switches(s), x, dis, v, HopsAt(hops, v, x));
      assert UpLink(links, u, v);
      LinkInside(s, u, v);
    }
  }

  /** An interface installed for a host leads to a next hop, inside the topology. */
  lemma EntryInside(s: Shape, links: LinkMap, hops: HopTable, tables: ForwardingTables, x: nat, v: nat, u: nat)
    requires s.Valid() && Running(s, links, hops, tables) && x < s.hosts && v < s.NodeCount()
    requires u in Neighbours(links, v) && links[v][u].idx in EntriesAt(tables, v, x)
    ensures u in HopsAt(hops, v, x) && u < s.NodeCount()
  {
    assert x < s.NodeCount();
    EntryLeadsToHop(links, Switches(s), hops, tables, AllNodes(s.NodeCount()), v, x, u);
    assert Routed(links, Switches(s), hops, x);
    HopInside(s, links, hops, x, v, u);
  }

  /** On a running network a packet never leaves the topology. */
  lemma {:induction false} StaysInside(s: Shape, links: LinkMap, hops: HopTable, tables: ForwardingTables,
                                       x: nat, p: seq<Node>, i: nat)
    requires s.Valid() && Running(s, links, hops, tables) && x < s.hosts
    requires ForwardedByTables(links, tables, x, p) && p[0] < s.NodeCount() && i < |p|
    ensures p[i] < s.NodeCount() && (i > 0 ==> p[i] in HopsAt(hops, p[i - 1], x))
    decreases i
  {
    if i == 0 {
    } else {
      StaysInside(s, links, hops, tables, x, p, i - 1);
      EntryInside(s, links, hops, tables, x, p[i - 1], p[i]);
    }
  }

  /** End to end: a packet from host `y` to host `x`, forwarded by the interface numbers in the
      tables, arrives after exactly two hops within a rack and four across racks, whatever
      the equal-cost choices; it never visits an aggregation switch and is never stuck. */
  lemma {:induction false} HostsReachEachOther(s: Shape, links: LinkMap, hops: HopTable, tables: ForwardingTables,
                                               x: nat, y: nat, p: seq<Node>)
    requires s.Valid() && Running(s, links, hops, tables) && x < s.hosts && y < s.hosts && x != y
    requires ForwardedByTables(links, tables, x, p) && p[0] == y
    ensures var k := if s.RackOf(x) == s.RackOf(y) then 2 else 4;
            |p| <= k + 1 && (p[|p| - 1] == x <==> |p| == k + 1)
    ensures p[|p| - 1] != x ==> EntriesAt(tables, p[|p| - 1], x) != []
    ensures forall i :: 0 <= i < |p| ==> p[i] < s.NodeCount() && !s.IsAggregation(p[i])
  {
    var nodes, k := AllNodes(s.NodeCount()), if s.RackOf(x) == s.RackOf(y) then 2 else 4;
    HostsInRacks(s, x);
    forall i | 0 <= i < |p| ensures p[i] in nodes && (i > 0 ==> p[i] in HopsAt(hops, p[i - 1], x)) {
      StaysInside(s, links, hops, tables, x, p, i);
    }
    assert x in nodes && Routed(links, Switches(s), hops, x);
    forall i | 0 <= i < |p| ensures !s.IsAggregation(p[i]) {
      AggregationUnused(s, links, hops, x, p, i);
    }
    ClosDistances(s, links, x);
    HostDistances(s, links, x, y, HopCounts(s, x));
    TablePacketsArrive(links, Switches(s), hops, tables, nodes, x, p, k);
  }
}
