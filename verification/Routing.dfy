/** The simulator's routing state: equal-cost next hops for every host, the forwarding
    tables installed from them, and what happens when a link goes down. */
module Routing {
  import opened Common
  import opened Digraph
  import opened Links
  import opened RouteSearch

  type Figures = map<Node, map<Node, nat>>

  function Lookup(m: Figures, v: Node, host: Node): Option<nat> {
    if v in m && host in m[v] then Some(m[v][host]) else None
  }

  function Store(m: Figures, v: Node, host: Node, x: nat): (r: Figures)
    ensures forall w, h :: Lookup(r, w, h) == if w == v && h == host then Some(x) else Lookup(m, w, h)
  {
    var row: map<Node, nat> := if v in m then m[v] else map[];
    m[v := row[host := x]]
  }

  ghost predicate RoutedBy(links: LinkMap, switches: set<Node>, t: HopTable, host: Node, dis: map<Node, nat>) {
    && Distances(links, switches, host, dis)
    && forall v {:trigger HopsAt(t, v, host)} :: ExactHops(links, switches, host, dis, v, HopsAt(t, v, host))
  }

  /** For the host, every node has its exact equal-cost next hops. */
  ghost predicate Routed(links: LinkMap, switches: set<Node>, t: HopTable, host: Node) {
    exists dis :: RoutedBy(links, switches, t, host, dis)
  }

  lemma RoutedKept(links: LinkMap, switches: set<Node>, before: HopTable, after: HopTable, host: Node)
    requires Routed(links, switches, before, host) && forall v :: HopsAt(after, v, host) == HopsAt(before, v, host)
    ensures Routed(links, switches, after, host)
  {
    var dis :| RoutedBy(links, switches, before, host, dis);
    assert RoutedBy(links, switches, after, host, dis);
  }

  /** All hosts of the network are routed. */
  ghost predicate AllRouted(links: LinkMap, switches: set<Node>, t: HopTable, nodes: seq<Node>) {
    forall host {:trigger Routed(links, switches, t, host)} ::
      host in nodes && host !in switches ==> Routed(links, switches, t, host)
  }

  /** The interface numbers of `v` towards these neighbours (0 where there is no link). */
  function Interfaces(links: LinkMap, v: Node, hops: seq<Node>): (r: seq<int>)
    ensures |r| == |hops|
    ensures forall i :: 0 <= i < |r| ==> r[i] == if hops[i] in Neighbours(links, v) then links[v][hops[i]].idx else 0
  {
    if hops == [] then []
    else
      var u := hops[|hops| - 1];
      Interfaces(links, v, hops[..|hops| - 1]) + [if u in Neighbours(links, v) then links[v][u].idx else 0]
  }

  /** Per node and destination, the outgoing interfaces. */
  type ForwardingTables = map<Node, map<Node, seq<int>>>

  function EntriesAt(t: ForwardingTables, v: Node, dst: Node): seq<int> {
    if v in t && dst in t[v] then t[v][dst] else []
  }

  function AddEntries(t: ForwardingTables, v: Node, dst: Node, more: seq<int>): (r: ForwardingTables) {
    var row: map<Node, seq<int>> := if v in t then t[v] else map[];
    t[v := row[dst := EntriesAt(t, v, dst) + more]]
  }

  lemma AddTwice(t: ForwardingTables, v: Node, dst: Node, a: seq<int>, b: seq<int>)
    ensures AddEntries(AddEntries(t, v, dst, a), v, dst, b) == AddEntries(t, v, dst, a + b)
  {
    var entries := EntriesAt(t, v, dst);
    assert (entries + a) + b == entries + (a + b);
    var once := AddEntries(t, v, dst, a);
    assert EntriesAt(once, v, dst) == entries + a;
    var row: map<Node, seq<int>> := once[v];
    assert row[dst := entries + a + b] == AddEntries(t, v, dst, a + b)[v];
  }

  /** The tables of these nodes are exactly the interfaces towards the next hops. */
  ghost predicate TablesMatch(links: LinkMap, hops: HopTable, tables: ForwardingTables, nodes: seq<Node>) {
    forall v, dst {:trigger EntriesAt(tables, v, dst)} :: v in nodes ==>
      EntriesAt(tables, v, dst) == Interfaces(links, v, HopsAt(hops, v, dst))
  }

  /** Take both directions of the link down. */
  function Downed(links: LinkMap, a: Node, b: Node): LinkMap
    requires b in Neighbours(links, a) && a in Neighbours(links, b)
  {
    var once := links[a := links[a][b := links[a][b].(up := false)]];
    once[b := once[b][a := once[b][a].(up := false)]]
  }

  /** From `x` to `y` everything is as before, except that a link named by the failures, in
      either direction, is down. */
  ghost predicate LinkWithout(before: LinkMap, after: LinkMap, failures: seq<(Node, Node)>, x: Node, y: Node) {
    && (UpLink(after, x, y) <==> UpLink(before, x, y) && (x, y) !in failures && (y, x) !in failures)
    && (y in Neighbours(after, x) <==> y in Neighbours(before, x))
    && (y in Neighbours(after, x) ==>
          Neighbours(after, x)[y].(up := false) == Neighbours(before, x)[y].(up := false))
  }

  /** The same for all links. (Instantiated on demand only.) */
  ghost predicate WithoutLinks(before: LinkMap, after: LinkMap, failures: seq<(Node, Node)>) {
    forall x: Node, y: Node {:trigger LinkWithout(before, after, failures, x, y)} ::
      LinkWithout(before, after, failures, x, y)
  }

  lemma DownedLinks(links: LinkMap, a: Node, b: Node)
    requires b in Neighbours(links, a) && a in Neighbours(links, b)
    ensures WithoutLinks(links, Downed(links, a, b), [(a, b)])
  {
  }

  lemma DownedKeepsValid(links: LinkMap, a: Node, b: Node)
    requires Symmetric(links) && RatesPositive(links) && UpLink(links, a, b)
    ensures Symmetric(Downed(links, a, b)) && RatesPositive(Downed(links, a, b))
  {
    var after := Downed(links, a, b);
    DownedLinks(links, a, b);
    forall x, y | UpLink(after, x, y) ensures UpLink(after, y, x) && after[x][y].bw > 0 {
      assert LinkWithout(links, after, [(a, b)], x, y) && LinkWithout(links, after, [(a, b)], y, x);
      assert after[x][y].bw == after[x][y].(up := false).bw == links[x][y].(up := false).bw;
    }
  }

  /** One direction of a link is entered or overwritten. */
  function WithLink(links: LinkMap, a: Node, b: Node, face: Interface): (r: LinkMap)
    ensures forall x :: Neighbours(r, x) == if x == a then Neighbours(links, a)[b := face] else Neighbours(links, x)
  {
    var row: map<Node, Interface> := Neighbours(links, a);
    links[a := row[b := face]]
  }

  lemma BothDirections(links: LinkMap, a: Node, b: Node, out: Interface, back: Interface)
    requires Symmetric(links) && RatesPositive(links) && out.up && back.up && out.bw > 0 && back.bw > 0
    ensures var r := WithLink(WithLink(links, a, b, out), b, a, back);
            && Symmetric(r) && RatesPositive(r)
            && forall x, y :: UpLink(r, x, y) <==> UpLink(links, x, y) || (x == a && y == b) || (x == b && y == a)
  {
    var once := WithLink(links, a, b, out);
    var r := WithLink(once, b, a, back);
    forall x, y ensures UpLink(r, x, y) <==> UpLink(links, x, y) || (x == a && y == b) || (x == b && y == a) {
      assert UpLink(once, x, y) <==> UpLink(links, x, y) || (x == a && y == b);
    }
    forall x, y | UpLink(r, x, y) ensures r[x][y].bw > 0 {
      assert Neighbours(r, x)[y] == out || Neighbours(r, x)[y] == back || UpLink(links, x, y);
    }
  }

  /** The table of all pairs holds this value for `v` and the host. */
  ghost predicate Holds(m: Figures, v: Node, host: Node, x: nat) {
    v in m && host in m[v] && m[v][host] == x
  }

  /** The stored figures are those of this path to `v`. */
  ghost predicate FiguresOf(links: LinkMap, switches: set<Node>, payload: nat, host: Node, p: seq<Node>, v: Node,
                            delay: Figures, tx: Figures, bw: Figures)
    requires RatesPositive(links)
  {
    && TreePath(links, switches, host, p) && p[|p| - 1] == v
    && Holds(delay, v, host, PathDelay(links, p)) && Holds(tx, v, host, PathTx(links, payload, p))
    && Holds(bw, v, host, PathBw(links, p))
  }

  lemma InterfacesExtend(links: LinkMap, v: Node, nexts: seq<Node>, k: nat)
    requires k < |nexts|
    ensures var idx := if nexts[k] in Neighbours(links, v) then links[v][nexts[k]].idx else 0;
            && Interfaces(links, v, nexts[..k + 1]) == Interfaces(links, v, nexts[..k]) + [idx]
            && (k == 0 ==> Interfaces(links, v, nexts[..k + 1]) == [idx])
  {
    assert nexts[..k + 1][..k] == nexts[..k];
  }

  /** Append one entry per next hop. */
  method InstallHops(links: LinkMap, before: ForwardingTables, v: Node, dst: Node, nexts: seq<Node>)
      returns (tables: ForwardingTables)
    ensures forall w, d {:trigger EntriesAt(tables, w, d)} :: EntriesAt(tables, w, d) ==
              if w == v && d == dst then EntriesAt(before, w, d) + Interfaces(links, v, nexts)
              else EntriesAt(before, w, d)
  {
    tables := before;
    for k := 0 to |nexts|
      invariant tables == if k == 0 then before else AddEntries(before, v, dst, Interfaces(links, v, nexts[..k]))
    {
      var entry := if nexts[k] in Neighbours(links, v) then links[v][nexts[k]].idx else 0;
      AddTwice(before, v, dst, Interfaces(links, v, nexts[..k]), [entry]);
      InterfacesExtend(links, v, nexts, k);
      tables := AddEntries(tables, v, dst, [entry]);
    }
    assert nexts[..|nexts|] == nexts;
  }

  /** Append the entries of one node, destination by destination. */
  method InstallNode(links: LinkMap, before: ForwardingTables, v: Node, hops: map<Node, seq<Node>>)
      returns (tables: ForwardingTables)
    ensures forall w, dst {:trigger EntriesAt(tables, w, dst)} :: EntriesAt(tables, w, dst) ==
              if w == v && dst in hops then EntriesAt(before, w, dst) + Interfaces(links, v, hops[dst])
              else EntriesAt(before, w, dst)
  {
    tables := before;
    var rest := hops.Keys;
    while rest != {}
      invariant rest <= hops.Keys
      invariant forall w, d {:trigger EntriesAt(tables, w, d)} :: EntriesAt(tables, w, d) ==
                  if w == v && d in hops.Keys - rest then EntriesAt(before, w, d) + Interfaces(links, v, hops[d])
                  else EntriesAt(before, w, d)
      decreases rest
    {
      var dst :| dst in rest;
      tables := InstallHops(links, tables, v, dst, hops[dst]);
      rest := rest - {dst};
    }
  }

  /** The table of `v` has gained its entries for `dst`, unless `v` is still to come. */
  ghost predicate InstalledAt(links: LinkMap, hops: HopTable, start: ForwardingTables, tables: ForwardingTables,
                              rest: set<Node>, v: Node, dst: Node)
  {
    EntriesAt(tables, v, dst) ==
      EntriesAt(start, v, dst) + if v in rest then [] else Interfaces(links, v, HopsAt(hops, v, dst))
  }

  ghost predicate InstalledBut(links: LinkMap, hops: HopTable, start: ForwardingTables, tables: ForwardingTables,
                               rest: set<Node>)
  {
    forall v, dst {:trigger InstalledAt(links, hops, start, tables, rest, v, dst)} ::
      InstalledAt(links, hops, start, tables, rest, v, dst)
  }

  lemma InstallNext(links: LinkMap, hops: HopTable, start: ForwardingTables, before: ForwardingTables,
                    tables: ForwardingTables, rest: set<Node>, node: Node)
    requires InstalledBut(links, hops, start, before, rest) && node in rest && node in hops
    requires forall w, dst {:trigger EntriesAt(tables, w, dst)} :: EntriesAt(tables, w, dst) ==
               if w == node && dst in hops[node]
               then EntriesAt(before, w, dst) + Interfaces(links, node, hops[node][dst])
               else EntriesAt(before, w, dst)
    ensures InstalledBut(links, hops, start, tables, rest - {node})
  {
    forall v, dst ensures InstalledAt(links, hops, start, tables, rest - {node}, v, dst) {
      assert InstalledAt(links, hops, start, before, rest, v, dst);
    }
  }

  /** Forget the entries of these nodes. */
  method ClearTables(before: ForwardingTables, nodes: seq<Node>) returns (tables: ForwardingTables)
    ensures forall v, dst :: EntriesAt(tables, v, dst) == if v in nodes then [] else EntriesAt(before, v, dst)
  {
    tables := before;
    for i := 0 to |nodes|
      invariant forall v, dst :: EntriesAt(tables, v, dst) == if v in nodes[..i] then [] else EntriesAt(before, v, dst)
    {
      ghost var was := tables;
      tables := tables - {nodes[i]};
      assert nodes[..i + 1] == nodes[..i] + [nodes[i]];
      assert forall v, dst ::
          EntriesAt(tables, v, dst) == if v == nodes[i] then [] else EntriesAt(was, v, dst);
    }
    assert nodes[..|nodes|] == nodes;
  }

  /** Copy one host's figures into the table of all pairs. */
  method StoreAll(m: Figures, vals: map<Node, nat>, host: Node) returns (r: Figures)
    ensures forall v, h {:trigger Lookup(r, v, h)} :: Lookup(r, v, h) ==
              if h == host && v in vals then Some(vals[v]) else Lookup(m, v, h)
  {
    r := m;
    var rest := vals.Keys;
    while rest != {}
      invariant rest <= vals.Keys
      invariant forall v, h {:trigger Lookup(r, v, h)} :: Lookup(r, v, h) ==
                  if h == host && v in vals.Keys - rest then Some(vals[v]) else Lookup(m, v, h)
      decreases rest
    {
      var v :| v in rest;
      r := Store(r, v, host, vals[v]);
      rest := rest - {v};
    }
  }

  /** No two neighbours of a node are behind the same interface. */
  ghost predicate FacesDistinct(links: LinkMap) {
    forall v, a, b :: a in Neighbours(links, v) && b in Neighbours(links, v) && a != b ==>
      Neighbours(links, v)[a].idx != Neighbours(links, v)[b].idx
  }

  /** The interface is not in use at `v`, except towards `u`. */
  ghost predicate FreeFace(links: LinkMap, v: Node, u: Node, idx: int) {
    forall x :: x in Neighbours(links, v) && x != u ==> Neighbours(links, v)[x].idx != idx
  }

  lemma DownedFaces(links: LinkMap, a: Node, b: Node)
    requires b in Neighbours(links, a) && a in Neighbours(links, b) && FacesDistinct(links)
    ensures FacesDistinct(Downed(links, a, b))
  {
    var after := Downed(links, a, b);
    DownedLinks(links, a, b);
    forall v, x | x in Neighbours(after, v)
      ensures x in Neighbours(links, v) && Neighbours(after, v)[x].idx == Neighbours(links, v)[x].idx
    {
      assert LinkWithout(links, after, [(a, b)], v, x);
      assert Neighbours(after, v)[x].(up := false) == Neighbours(links, v)[x].(up := false);
    }
  }

  lemma FacesStayDistinct(links: LinkMap, a: Node, b: Node, face: Interface)
    requires FacesDistinct(links) && FreeFace(links, a, b, face.idx)
    ensures FacesDistinct(WithLink(links, a, b, face))
  {
    var after := WithLink(links, a, b, face);
    forall v, x, y | x in Neighbours(after, v) && y in Neighbours(after, v) && x != y
      ensures Neighbours(after, v)[x].idx != Neighbours(after, v)[y].idx
    {
      assert x != b || v != a ==> x in Neighbours(links, v) && Neighbours(after, v)[x] == Neighbours(links, v)[x];
      assert y != b || v != a ==> y in Neighbours(links, v) && Neighbours(after, v)[y] == Neighbours(links, v)[y];
    }
  }

  lemma WithoutOneMore(before: LinkMap, mid: LinkMap, after: LinkMap, failures: seq<(Node, Node)>, next: (Node, Node))
    requires WithoutLinks(before, mid, failures) && WithoutLinks(mid, after, [next])
    ensures WithoutLinks(before, after, failures + [next])
  {
    forall x: Node, y: Node ensures LinkWithout(before, after, failures + [next], x, y) {
      assert LinkWithout(before, mid, failures, x, y) && LinkWithout(mid, after, [next], x, y);
      assert (x, y) in failures + [next] <==> (x, y) in failures || (x, y) == next;
      assert (y, x) in failures + [next] <==> (y, x) in failures || (y, x) == next;
    }
  }

  /** What is installed at `v` for a host: for each recorded next hop, in order, the number of
      the interface that the link map has from `v` to it, and nothing else. */
  ghost predicate WiredAt(links: LinkMap, hops: HopTable, tables: ForwardingTables, v: Node, host: Node) {
    && |EntriesAt(tables, v, host)| == |HopsAt(hops, v, host)|
    && forall i :: 0 <= i < |HopsAt(hops, v, host)| ==>
         && HopsAt(hops, v, host)[i] in Neighbours(links, v)
         && EntriesAt(tables, v, host)[i] == Neighbours(links, v)[HopsAt(hops, v, host)[i]].idx
  }

  lemma RoutedIsWired(links: LinkMap, switches: set<Node>, hops: HopTable, tables: ForwardingTables, nodes: seq<Node>,
                      v: Node, host: Node)
    requires Symmetric(links) && AllRouted(links, switches, hops, nodes) && TablesMatch(links, hops, tables, nodes)
    requires v in nodes && host in nodes && host !in switches
    ensures WiredAt(links, hops, tables, v, host)
  {
    assert Routed(links, switches, hops, host);
    var dis :| RoutedBy(links, switches, hops, host, dis);
    var mine := HopsAt(hops, v, host);
    assert EntriesAt(tables, v, host) == Interfaces(links, v, mine);
    forall i | 0 <= i < |mine| ensures mine[i] in Neighbours(links, v) {
      assert mine[i] in mine;
      assert IsNextHop(links, switches, host, dis, v, mine[i]);
    }
  }

  /** So it is at every node for every host. */
  ghost predicate Wired(links: LinkMap, switches: set<Node>, hops: HopTable, tables: ForwardingTables,
      nodes: seq<Node>)
  {
    forall v, host {:trigger WiredAt(links, hops, tables, v, host)} ::
      v in nodes && host in nodes && host !in switches ==> WiredAt(links, hops, tables, v, host)
  }

  lemma ConsistentIsWired(links: LinkMap, switches: set<Node>, hops: HopTable, tables: ForwardingTables,
                          nodes: seq<Node>)
    requires Symmetric(links) && AllRouted(links, switches, hops, nodes) && TablesMatch(links, hops, tables, nodes)
    ensures Wired(links, switches, hops, tables, nodes)
  {
    forall v, host | v in nodes && host in nodes && host !in switches ensures WiredAt(links, hops, tables, v, host) {
      RoutedIsWired(links, switches, hops, tables, nodes, v, host);
    }
  }

  class Network {
    const switches: set<Node>
    const payload: nat
    var links: LinkMap
    var nextHop: HopTable
    var pairDelay: Figures
    var pairTxDelay: Figures
    var pairBw: Figures
    var tables: ForwardingTables

    ghost predicate Valid()
      reads this
    {
      Symmetric(links) && RatesPositive(links)
    }

    /** Routes and tables agree with the links that are up. */
    ghost predicate Consistent(nodes: seq<Node>)
      reads this
    {
      && Valid()
      && AllRouted(links, switches, nextHop, nodes) && TablesMatch(links, nextHop, tables, nodes)
    }

    constructor (switches: set<Node>, payload: nat)
      ensures Valid() && this.switches == switches && this.payload == payload
      ensures links == map[] && nextHop == map[] && tables == map[]
    {
      this.switches, this.payload := switches, payload;
      links, nextHop, tables := map[], map[], map[];
      pairDelay, pairTxDelay, pairBw := map[], map[], map[];
    }

    /** Enter one link of the topology, in both directions. */
    method AddLink(src: Node, dst: Node, srcIdx: int, dstIdx: int, delay: nat, bw: nat)
      requires Valid() && bw > 0
      modifies this`links
      ensures Valid()
      ensures UpLink(links, src, dst) && UpLink(links, dst, src)
      ensures forall x, y :: UpLink(links, x, y) <==>
                UpLink(old(links), x, y) || (x == src && y == dst) || (x == dst && y == src)
      ensures Neighbours(links, dst)[src] == Interface(dstIdx, true, delay, bw)
      ensures src != dst ==> Neighbours(links, src)[dst] == Interface(srcIdx, true, delay, bw)
      ensures forall x, y :: !(x == src && y == dst) && !(x == dst && y == src) ==>
                && (y in Neighbours(links, x) <==> y in Neighbours(old(links), x))
                && (y in Neighbours(links, x) ==> Neighbours(links, x)[y] == Neighbours(old(links), x)[y])
      ensures (FacesDistinct(old(links)) && FreeFace(old(links), src, dst, srcIdx)
               && FreeFace(old(links), dst, src, dstIdx)) ==>
                FacesDistinct(links)
    {
      var there, back := Interface(srcIdx, true, delay, bw), Interface(dstIdx, true, delay, bw);
      BothDirections(links, src, dst, there, back);
      if FacesDistinct(links) && FreeFace(links, src, dst, srcIdx) && FreeFace(links, dst, src, dstIdx) {
        FacesStayDistinct(links, src, dst, there);
        FacesStayDistinct(WithLink(links, src, dst, there), dst, src, back);
      }
      links := WithLink(links, src, dst, there);
      links := WithLink(links, dst, src, back);
    }

    /** Search from one host; record next hops, and delays and rates along the search tree. */
    method CalculateRoute(host: Node) returns (ghost dis: map<Node, nat>, ghost tree: map<Node, seq<Node>>)
      requires Valid() && forall v :: HopsAt(nextHop, v, host) == []
      modifies this`nextHop, this`pairDelay, this`pairTxDelay, this`pairBw
      ensures RoutedBy(links, switches, nextHop, host, dis) && OthersKept(old(nextHop), nextHop, host)
      ensures tree.Keys == dis.Keys
      ensures forall v :: v in dis ==>
                && |tree[v]| == dis[v] + 1
                && FiguresOf(links, switches, payload, host, tree[v], v, pairDelay, pairTxDelay, pairBw)
      ensures forall v, h :: h != host || v !in dis ==>
                && Lookup(pairDelay, v, h) == Lookup(old(pairDelay), v, h)
                && Lookup(pairTxDelay, v, h) == Lookup(old(pairTxDelay), v, h)
                && Lookup(pairBw, v, h) == Lookup(old(pairBw), v, h)
    {
      var s, t, paths := SearchFrom(links, switches, host, payload, nextHop);
      nextHop := t;
      pairDelay := StoreAll(pairDelay, s.delay, host);
      pairTxDelay := StoreAll(pairTxDelay, s.tx, host);
      pairBw := StoreAll(pairBw, s.bw, host);
      dis, tree := s.dis, paths;
      forall v | v in dis
        ensures |tree[v]| == dis[v] + 1
        ensures FiguresOf(links, switches, payload, host, tree[v], v, pairDelay, pairTxDelay, pairBw)
      {
        assert MeasuredAt(links, switches, host, payload, s, tree[v], v);
        assert Lookup(pairDelay, v, host).Some? && Lookup(pairTxDelay, v, host).Some? && Lookup(pairBw, v, host).Some?;
      }
    }

    /** Routes towards every host among the nodes. */
    method CalculateRoutes(nodes: seq<Node>)
      requires Valid() && Distinct(nodes)
      requires forall v, host :: host in nodes ==> HopsAt(nextHop, v, host) == []
      modifies this`nextHop, this`pairDelay, this`pairTxDelay, this`pairBw
      ensures AllRouted(links, switches, nextHop, nodes)
      ensures forall v, h :: !(h in nodes && h !in switches) ==> HopsAt(nextHop, v, h) == HopsAt(old(nextHop), v, h)
    {
      for i := 0 to |nodes|
        invariant forall j {:trigger nodes[j]} :: 0 <= j < i && nodes[j] !in switches ==>
            Routed(links, switches, nextHop, nodes[j])
        invariant forall v, h :: !(h in nodes[..i] && h !in switches) ==>
            HopsAt(nextHop, v, h) == HopsAt(old(nextHop), v, h)
      {
        var node := nodes[i];
        if node !in switches {
          ghost var before := nextHop;
          ghost var dis, tree := CalculateRoute(node);
          assert RoutedBy(links, switches, nextHop, node, dis);
          forall j {:trigger nodes[j]} | 0 <= j < i && nodes[j] !in switches
            ensures Routed(links, switches, nextHop, nodes[j])
          {
            RoutedKept(links, switches, before, nextHop, nodes[j]);
          }
        }
        assert nodes[..i + 1] == nodes[..i] + [node];
      }
      assert nodes[..|nodes|] == nodes;
    }

    /** Install the interfaces towards all next hops. */
    method SetRoutingEntries()
      modifies this`tables
      ensures forall v, dst {:trigger EntriesAt(tables, v, dst)} ::
                EntriesAt(tables, v, dst) == EntriesAt(old(tables), v, dst)
                  + Interfaces(links, v, HopsAt(nextHop, v, dst))
    {
      var rest := nextHop.Keys;
      ghost var start := tables;
      while rest != {}
        invariant rest <= nextHop.Keys && InstalledBut(links, nextHop, start, tables, rest)
        decreases rest
      {
        var node :| node in rest;
        ghost var before := tables;
        tables := InstallNode(links, tables, node, nextHop[node]);
        InstallNext(links, nextHop, start, before, tables, rest, node);
        rest := rest - {node};
      }
      forall v, dst ensures EntriesAt(tables, v, dst) ==
          EntriesAt(start, v, dst) + Interfaces(links, v, HopsAt(nextHop, v, dst))
      {
        assert InstalledAt(links, nextHop, start, tables, {}, v, dst);
      }
    }

    /** Initial routes and tables. */
    method Configure(nodes: seq<Node>)
      requires Valid() && Distinct(nodes) && nextHop == map[] && tables == map[]
      modifies this`nextHop, this`pairDelay, this`pairTxDelay, this`pairBw, this`tables
      ensures Consistent(nodes) && Wired(links, switches, nextHop, tables, nodes)
    {
      CalculateRoutes(nodes);
      SetRoutingEntries();
      ConsistentIsWired(links, switches, nextHop, tables, nodes);
    }

    /** Both directions of a link that is up go down; nothing else about the links changes. */
    method LinkDown(a: Node, b: Node)
      requires Valid() && UpLink(links, a, b)
      modifies this`links
      ensures Valid() && WithoutLinks(old(links), links, [(a, b)])
      ensures FacesDistinct(old(links)) ==> FacesDistinct(links)
    {
      assert UpLink(links, b, a);
      DownedLinks(links, a, b);
      DownedKeepsValid(links, a, b);
      if FacesDistinct(links) {
        DownedFaces(links, a, b);
      }
      links := Downed(links, a, b);
    }

    /** A link fails: both directions go down, everything is routed and installed afresh.
        A link that is already down changes nothing. */
    method TakeDownLink(nodes: seq<Node>, a: Node, b: Node)
      requires Consistent(nodes) && Distinct(nodes)
      modifies this
      ensures Consistent(nodes) && WithoutLinks(old(links), links, [(a, b)])
      ensures Wired(links, switches, nextHop, tables, nodes)
      ensures !UpLink(old(links), a, b) ==> links == old(links) && nextHop == old(nextHop) && tables == old(tables)
      ensures FacesDistinct(old(links)) ==> FacesDistinct(links)
    {
      ConsistentIsWired(links, switches, nextHop, tables, nodes);
      if !UpLink(links, a, b) {
        return;
      }
      LinkDown(a, b);
      nextHop := map[];
      CalculateRoutes(nodes);
      tables := ClearTables(tables, nodes);
      SetRoutingEntries();
      ConsistentIsWired(links, switches, nextHop, tables, nodes);
    }

    /** Links fail one after the other: those remain up that none of the failures names, and
        everything is consistent again. */
    method TakeDownLinks(nodes: seq<Node>, failures: seq<(Node, Node)>)
      requires Consistent(nodes) && Distinct(nodes)
      modifies this
      ensures Consistent(nodes) && WithoutLinks(old(links), links, failures)
      ensures Wired(links, switches, nextHop, tables, nodes)
      ensures FacesDistinct(old(links)) ==> FacesDistinct(links)
    {
      for i := 0 to |failures|
        invariant Consistent(nodes) && WithoutLinks(old(links), links, failures[..i])
        invariant FacesDistinct(old(links)) ==> FacesDistinct(links)
      {
        ghost var before := links;
        TakeDownLink(nodes, failures[i].0, failures[i].1);
        assert failures[..i + 1] == failures[..i] + [failures[i]];
        WithoutOneMore(old(links), before, links, failures[..i], failures[i]);
      }
      assert failures[..|failures|] == failures;
      ConsistentIsWired(links, switches, nextHop, tables, nodes);
    }
  }

  /** Every installed entry towards a host belongs to a link that is up. */
  lemma EntriesAreUp(links: LinkMap, switches: set<Node>, t: HopTable, tables: ForwardingTables, nodes: seq<Node>,
                     v: Node, host: Node, i: nat)
    requires Symmetric(links) && AllRouted(links, switches, t, nodes) && TablesMatch(links, t, tables, nodes)
    requires v in nodes && host in nodes && host !in switches && i < |EntriesAt(tables, v, host)|
    ensures exists u ::
        u in HopsAt(t, v, host) && UpLink(links, v, u) && EntriesAt(tables, v, host)[i] == links[v][u].idx
  {
    assert Routed(links, switches, t, host);
    var dis :| RoutedBy(links, switches, t, host, dis);
    var u := HopsAt(t, v, host)[i];
    assert u in HopsAt(t, v, host);
    assert IsNextHop(links, switches, host, dis, v, u);
    assert UpLink(links, v, u);
  }

  /** Each packet handed on by the table's next hops. */
  ghost predicate Travels(t: HopTable, host: Node, p: seq<Node>) {
    |p| > 0 && forall i {:trigger p[i]} :: 0 <= i < |p| - 1 ==> p[i + 1] in HopsAt(t, p[i], host)
  }

  lemma {:induction false} TravelsForwarded(links: LinkMap, switches: set<Node>, t: HopTable, host: Node,
      dis: map<Node, nat>, hops: map<Node, seq<Node>>, p: seq<Node>)
    requires RoutedBy(links, switches, t, host, dis) && Travels(t, host, p)
    requires hops.Keys == dis.Keys && forall v :: v in hops ==> hops[v] == HopsAt(t, v, host)
    ensures Forwarded(hops, p)
  {
    forall i {:trigger p[i]} | 0 <= i < |p| - 1 ensures p[i] in hops && p[i + 1] in hops[p[i]] {
      assert p[i + 1] in HopsAt(t, p[i], host);
      assert IsNextHop(links, switches, host, dis, p[i], p[i + 1]);
    }
  }

  lemma {:induction false} PacketsArriveBy(links: LinkMap, switches: set<Node>, t: HopTable, host: Node,
      dis: map<Node, nat>, p: seq<Node>)
    requires Symmetric(links) && RoutedBy(links, switches, t, host, dis) && Travels(t, host, p) && p[0] in dis
    ensures UpWalk(links, p) && Distinct(p) && |p| <= dis[p[0]] + 1
    ensures forall i :: 0 < i < |p| ==> p[i] == host || p[i] in switches
    ensures p[|p| - 1] == host <==> |p| == dis[p[0]] + 1
    ensures p[|p| - 1] != host ==> HopsAt(t, p[|p| - 1], host) != []
  {
    var hops := map v | v in dis :: HopsAt(t, v, host);
    assert forall v :: v in hops ==> hops[v] == HopsAt(t, v, host);
    TravelsForwarded(links, switches, t, host, dis, hops, p);
    ForwardingIsLoopFree(links, switches, host, dis, hops, p);
  }

  /** In a routed network a packet for a host, however the equal-cost choices fall, uses only
      links that are up, passes through switches only, never returns to a node, arrives after
      exactly as many hops as the shortest walk, and is never stuck before that. */
  lemma {:induction false} PacketsArrive(links: LinkMap, switches: set<Node>, t: HopTable, host: Node, p: seq<Node>,
      k: nat)
    requires Symmetric(links) && Routed(links, switches, t, host) && Travels(t, host, p)
    requires Reach(links, switches, host, p[0], k) && forall j: nat :: j < k ==> !Reach(links, switches, host, p[0], j)
    ensures UpWalk(links, p) && Distinct(p) && |p| <= k + 1
    ensures forall i :: 0 < i < |p| ==> p[i] == host || p[i] in switches
    ensures p[|p| - 1] == host <==> |p| == k + 1
    ensures p[|p| - 1] != host ==> HopsAt(t, p[|p| - 1], host) != []
  {
    var dis :| RoutedBy(links, switches, t, host, dis);
    assert dis[p[0]] == k;
    PacketsArriveBy(links, switches, t, host, dis, p);
  }

  /** A packet handed on by the installed tables: it leaves a node through an interface that
      is entered there for the host, to the neighbour behind that interface. */
  ghost predicate ForwardedByTables(links: LinkMap, tables: ForwardingTables, host: Node, p: seq<Node>) {
    |p| > 0 && forall i {:trigger p[i]} :: 0 <= i < |p| - 1 ==>
      p[i + 1] in Neighbours(links, p[i]) && links[p[i]][p[i + 1]].idx in EntriesAt(tables, p[i], host)
  }

  /** An interface entered for the host leads to a next hop, and to no other neighbour. */
  lemma EntryLeadsToHop(links: LinkMap, switches: set<Node>, t: HopTable, tables: ForwardingTables, nodes: seq<Node>,
                        v: Node, host: Node, u: Node)
    requires Symmetric(links) && AllRouted(links, switches, t, nodes) && TablesMatch(links, t, tables, nodes)
    requires FacesDistinct(links) && v in nodes && host in nodes && host !in switches
    requires u in Neighbours(links, v) && links[v][u].idx in EntriesAt(tables, v, host)
    ensures u in HopsAt(t, v, host)
  {
    var i :| 0 <= i < |EntriesAt(tables, v, host)| && EntriesAt(tables, v, host)[i] == links[v][u].idx;
    EntriesAreUp(links, switches, t, tables, nodes, v, host, i);
    var x :| x in HopsAt(t, v, host) && UpLink(links, v, x) && links[v][u].idx == links[v][x].idx;
    assert u == x;
  }

  /** In a consistent network whose interfaces are told apart, packets forwarded by the
      installed tables arrive: only over links that are up, only through switches, without
      returning to a node, after exactly as many hops as the shortest walk, never stuck. */
  lemma {:induction false} TablePacketsArrive(links: LinkMap, switches: set<Node>, t: HopTable,
      tables: ForwardingTables, nodes: seq<Node>, host: Node, p: seq<Node>, k: nat)
    requires Symmetric(links) && AllRouted(links, switches, t, nodes) && TablesMatch(links, t, tables, nodes)
    requires FacesDistinct(links) && host in nodes && host !in switches && forall i :: 0 <= i < |p| ==> p[i] in nodes
    requires ForwardedByTables(links, tables, host, p)
    requires Reach(links, switches, host, p[0], k) && forall j: nat :: j < k ==> !Reach(links, switches, host, p[0], j)
    ensures UpWalk(links, p) && Distinct(p) && |p| <= k + 1
    ensures forall i :: 0 < i < |p| ==> p[i] == host || p[i] in switches
    ensures p[|p| - 1] == host <==> |p| == k + 1
    ensures p[|p| - 1] != host ==> EntriesAt(tables, p[|p| - 1], host) != []
  {
    forall i {:trigger p[i]} | 0 <= i < |p| - 1 ensures p[i + 1] in HopsAt(t, p[i], host) {
      EntryLeadsToHop(links, switches, t, tables, nodes, p[i], host, p[i + 1]);
    }
    assert Routed(links, switches, t, host);
    PacketsArrive(links, switches, t, host, p, k);
    var last := p[|p| - 1];
    assert EntriesAt(tables, last, host) == Interfaces(links, last, HopsAt(t, last, host));
  }
}
