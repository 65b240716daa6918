/** The breadth-first search from one host that never forwards through another host: it
    records all equal-cost next hops, and delay and rate along the search tree. */
module RouteSearch {
  import opened Common
  import opened Digraph
  import opened Links

  /** The search's queue and its maps of distance, delay, transmission delay and rate. */
  datatype Search = Search(q: seq<Node>, dis: map<Node, nat>, delay: map<Node, nat>, tx: map<Node, nat>,
      bw: map<Node, nat>)

  /** For every node and destination, the next hops. */
  type HopTable = map<Node, map<Node, seq<Node>>>

  function HopsAt(t: HopTable, v: Node, host: Node): seq<Node> {
    if v in t && host in t[v] then t[v][host] else []
  }

  function PushHop(t: HopTable, v: Node, host: Node, u: Node): (r: HopTable)
    ensures HopsAt(r, v, host) == HopsAt(t, v, host) + [u]
    ensures forall w, h :: w != v || h != host ==> HopsAt(r, w, h) == HopsAt(t, w, h)
  {
    var row: map<Node, seq<Node>> := if v in t then t[v] else map[];
    t[v := row[host := HopsAt(t, v, host) + [u]]]
  }

  // ----- What the search has established

  /** All links out of `u` have been followed. */
  ghost predicate Followed(links: LinkMap, dis: map<Node, nat>, u: Node) {
    u in dis && forall v :: UpLink(links, u, v) ==> v in dis && dis[v] <= dis[u] + 1
  }

  ghost predicate SortedQueue(q: seq<Node>, dis: map<Node, nat>) {
    && (forall j :: 0 <= j < |q| ==> q[j] in dis)
    && forall i, j :: 0 <= i < j < |q| ==> dis[q[i]] <= dis[q[j]]
  }

  /** The queue holds the host and the discovered switches in order of distance. */
  ghost predicate Queued(switches: set<Node>, host: Node, q: seq<Node>, dis: map<Node, nat>) {
    && |q| > 0 && q[0] == host && host in dis && dis[host] == 0
    && Distinct(q) && SortedQueue(q, dis)
    && (forall v :: v in q <==> v in dis && (v == host || v in switches))
  }

  ghost predicate Reached(links: LinkMap, switches: set<Node>, host: Node, dis: map<Node, nat>) {
    forall v {:trigger Reach(links, switches, host, v, dis[v])} :: v in dis ==> Reach(links, switches, host, v, dis[v])
  }

  ghost predicate AllFollowed(links: LinkMap, dis: map<Node, nat>, expanded: set<Node>) {
    forall u {:trigger Followed(links, dis, u)} :: u in expanded ==> Followed(links, dis, u)
  }

  /** Expanding `now`, the discovered nodes are at most one step further. */
  ghost predicate Discovery(links: LinkMap, switches: set<Node>, host: Node, s: Search, expanded: set<Node>,
      now: Node)
  {
    && Queued(switches, host, s.q, s.dis) && Reached(links, switches, host, s.dis)
    && now in s.q && (forall v :: v in s.dis ==> s.dis[v] <= s.dis[now] + 1)
    && AllFollowed(links, s.dis, expanded)
  }

  ghost predicate MeasuredAt(links: LinkMap, switches: set<Node>, host: Node, payload: nat, s: Search, p: seq<Node>,
      v: Node)
    requires RatesPositive(links)
  {
    && v in s.dis && v in s.delay && v in s.tx && v in s.bw
    && TreePath(links, switches, host, p) && p[|p| - 1] == v && |p| == s.dis[v] + 1
    && s.delay[v] == PathDelay(links, p) && s.tx[v] == PathTx(links, payload, p) && s.bw[v] == PathBw(links, p)
  }

  /** The recorded figures are those of one path per node, of that node's distance. */
  ghost predicate Measured(links: LinkMap, switches: set<Node>, host: Node, payload: nat, s: Search,
      tree: map<Node, seq<Node>>)
    requires RatesPositive(links)
  {
    && tree.Keys == s.dis.Keys == s.delay.Keys == s.tx.Keys == s.bw.Keys
    && forall v {:trigger MeasuredAt(links, switches, host, payload, s, tree[v], v)} ::
         v in tree ==> MeasuredAt(links, switches, host, payload, s, tree[v], v)
  }

  ghost predicate HopsSoFarAt(links: LinkMap, host: Node, dis: map<Node, nat>, t: HopTable, expanded: set<Node>,
                              now: Node, seen: set<Node>, v: Node) {
    Distinct(HopsAt(t, v, host)) && forall u :: u in HopsAt(t, v, host) <==>
      && (u in expanded || (u == now && v in seen)) && UpLink(links, u, v)
      && u in dis && v in dis && dis[u] + 1 == dis[v]
  }

  /** The next hops found so far: those among the expanded nodes, and `now` for the
      neighbours already looked at. */
  ghost predicate HopsSoFar(links: LinkMap, host: Node, dis: map<Node, nat>, t: HopTable, expanded: set<Node>,
                            now: Node, seen: set<Node>) {
    forall v {:trigger HopsSoFarAt(links, host, dis, t, expanded, now, seen, v)} ::
      HopsSoFarAt(links, host, dis, t, expanded, now, seen, v)
  }

  /** Entries for other destinations are left alone. */
  ghost predicate OthersKept(before: HopTable, after: HopTable, host: Node) {
    forall v, h :: h != host ==> HopsAt(after, v, h) == HopsAt(before, v, h)
  }

  // ----- Discovering a node

  lemma {:induction false} DiscoverKeepsDiscovery(links: LinkMap, switches: set<Node>, host: Node, s: Search,
      expanded: set<Node>, now: Node, next: Node, after: Search)
    requires Discovery(links, switches, host, s, expanded, now)
    requires UpLink(links, now, next) && next !in s.dis
    requires after.dis == s.dis[next := s.dis[now] + 1]
    requires after.q == if next in switches then s.q + [next] else s.q
    ensures Discovery(links, switches, host, after, expanded, now)
  {
    var d := s.dis[now];
    assert Reach(links, switches, host, now, d);
    assert now == host || now in switches;
    assert d == 0 ==> now == host;
    assert now == host ==> d == 0;
    assert Reach(links, switches, host, next, d + 1);
    assert next !in s.q && next != host;
    forall v ensures v in after.q <==> v in after.dis && (v == host || v in switches) {
      assert v in after.q <==> v in s.q || (next in switches && v == next);
    }
    forall u {:trigger Followed(links, after.dis, u)} | u in expanded ensures Followed(links, after.dis, u) {
      assert Followed(links, s.dis, u);
    }
    forall v {:trigger Reach(links, switches, host, v, after.dis[v])} | v in after.dis
      ensures Reach(links, switches, host, v, after.dis[v])
    {
      assert v != next ==> Reach(links, switches, host, v, s.dis[v]);
    }
  }

  lemma {:induction false} OthersMeasured(links: LinkMap, switches: set<Node>, host: Node, payload: nat, s: Search,
                        tree: map<Node, seq<Node>>, next: Node, after: Search)
    requires RatesPositive(links) && Measured(links, switches, host, payload, s, tree) && next !in s.dis
    requires next in after.dis && next in after.delay && next in after.tx && next in after.bw
    requires after.dis == s.dis[next := after.dis[next]] && after.delay == s.delay[next := after.delay[next]]
    requires after.tx == s.tx[next := after.tx[next]] && after.bw == s.bw[next := after.bw[next]]
    ensures forall v {:trigger MeasuredAt(links, switches, host, payload, after, tree[v], v)} ::
              v in tree ==> MeasuredAt(links, switches, host, payload, after, tree[v], v)
  {
    forall v {:trigger MeasuredAt(links, switches, host, payload, after, tree[v], v)} | v in tree
      ensures MeasuredAt(links, switches, host, payload, after, tree[v], v)
    {
      assert MeasuredAt(links, switches, host, payload, s, tree[v], v);
    }
  }

  lemma {:induction false} DiscoverKeepsMeasured(links: LinkMap, switches: set<Node>, host: Node, payload: nat,
      s: Search, tree: map<Node, seq<Node>>, now: Node, next: Node, after: Search)
    requires RatesPositive(links) && Measured(links, switches, host, payload, s, tree)
    requires UpLink(links, now, next) && now in s.dis && next !in s.dis
    requires if now == host then s.dis[now] == 0 else now in switches
    requires after.dis == s.dis[next := s.dis[now] + 1]
    requires after.delay == s.delay[next := Add64(s.delay[now], links[now][next].delay)]
    requires after.tx == s.tx[next := Add64(s.tx[now], TxTime(payload, links[now][next].bw))]
    requires after.bw == s.bw[next := Min(s.bw[now], links[now][next].bw)]
    ensures Measured(links, switches, host, payload, after, tree[next := tree[now] + [next]])
  {
    assert MeasuredAt(links, switches, host, payload, s, tree[now], now);
    OthersMeasured(links, switches, host, payload, s, tree, next, after);
    var grown := tree[next := tree[now] + [next]];
    forall v {:trigger MeasuredAt(links, switches, host, payload, after, grown[v], v)} | v in grown
      ensures MeasuredAt(links, switches, host, payload, after, grown[v], v)
    {
      assert v != next ==> MeasuredAt(links, switches, host, payload, after, tree[v], v);
    }
  }

  lemma {:induction false} DiscoverKeepsHops(links: LinkMap, host: Node, dis: map<Node, nat>, t: HopTable,
      expanded: set<Node>, now: Node, seen: set<Node>, next: Node, d: nat)
    requires HopsSoFar(links, host, dis, t, expanded, now, seen) && next !in dis && next !in seen && now in dis
    requires AllFollowed(links, dis, expanded)
    ensures HopsSoFar(links, host, dis[next := d], t, expanded, now, seen)
  {
    forall u | u in expanded ensures !UpLink(links, u, next) && u in dis {
      assert Followed(links, dis, u);
    }
    var after := dis[next := d];
    forall v ensures HopsSoFarAt(links, host, after, t, expanded, now, seen, v) {
      assert HopsSoFarAt(links, host, dis, t, expanded, now, seen, v);
    }
  }

  lemma {:induction false} RecordHop(links: LinkMap, host: Node, dis: map<Node, nat>, t: HopTable, expanded: set<Node>,
                   now: Node, seen: set<Node>, next: Node)
    requires HopsSoFar(links, host, dis, t, expanded, now, seen)
    requires next !in seen && now !in expanded && UpLink(links, now, next) && now in dis && next in dis
    ensures HopsSoFar(links, host, dis, if dis[now] + 1 == dis[next] then PushHop(t, next, host, now) else t,
                      expanded, now, seen + {next})
  {
    var r := if dis[now] + 1 == dis[next] then PushHop(t, next, host, now) else t;
    forall v ensures HopsSoFarAt(links, host, dis, r, expanded, now, seen + {next}, v) {
      assert HopsSoFarAt(links, host, dis, t, expanded, now, seen, v);
      if v == next {
        assert now !in HopsAt(t, next, host);
      } else {
        assert HopsAt(r, v, host) == HopsAt(t, v, host);
      }
    }
  }

  // ----- The search

  /** Everything established while `now` is being expanded. */
  ghost predicate Searching(links: LinkMap, switches: set<Node>, host: Node, payload: nat, s: Search, t: HopTable,
                            tree: map<Node, seq<Node>>, expanded: set<Node>, now: Node, seen: set<Node>)
    requires RatesPositive(links)
  {
    && Discovery(links, switches, host, s, expanded, now) && Measured(links, switches, host, payload, s, tree)
    && HopsSoFar(links, host, s.dis, t, expanded, now, seen)
    && now !in expanded && (forall v :: v in seen && UpLink(links, now, v) ==> v in s.dis)
  }

  lemma {:induction false} SkipHop(links: LinkMap, host: Node, dis: map<Node, nat>, t: HopTable, expanded: set<Node>,
                                   now: Node, seen: set<Node>, next: Node)
    requires HopsSoFar(links, host, dis, t, expanded, now, seen) && !UpLink(links, now, next)
    ensures HopsSoFar(links, host, dis, t, expanded, now, seen + {next})
  {
    forall v ensures HopsSoFarAt(links, host, dis, t, expanded, now, seen + {next}, v) {
      assert HopsSoFarAt(links, host, dis, t, expanded, now, seen, v);
    }
  }

  lemma {:induction false} SkipKeepsSearching(links: LinkMap, switches: set<Node>, host: Node, payload: nat,
      s: Search, t: HopTable, tree: map<Node, seq<Node>>, expanded: set<Node>, now: Node, seen: set<Node>, next: Node)
    requires RatesPositive(links) && !UpLink(links, now, next)
    requires Searching(links, switches, host, payload, s, t, tree, expanded, now, seen)
    ensures Searching(links, switches, host, payload, s, t, tree, expanded, now, seen + {next})
  {
    SkipHop(links, host, s.dis, t, expanded, now, seen, next);
  }

  lemma {:induction false} RecordKeepsSearching(links: LinkMap, switches: set<Node>, host: Node, payload: nat,
      s: Search, t: HopTable, tree: map<Node, seq<Node>>, expanded: set<Node>, now: Node, seen: set<Node>, next: Node)
    requires RatesPositive(links) && UpLink(links, now, next) && next in s.dis && next !in seen
    requires Searching(links, switches, host, payload, s, t, tree, expanded, now, seen)
    ensures now in s.dis
    ensures Searching(links, switches, host, payload, s,
        if s.dis[now] + 1 == s.dis[next] then PushHop(t, next, host, now) else t,
                      tree, expanded, now, seen + {next})
  {
    RecordHop(links, host, s.dis, t, expanded, now, seen, next);
  }

  /** A node met for the first time: one step further than `now`, queued if it is a switch. */
  method Discover(links: LinkMap, switches: set<Node>, ghost host: Node, payload: nat, before: Search,
      ghost t: HopTable, ghost treeBefore: map<Node, seq<Node>>, ghost expanded: set<Node>, now: Node,
      ghost seen: set<Node>, next: Node)
      returns (s: Search, ghost tree: map<Node, seq<Node>>)
    requires RatesPositive(links) && next !in seen && UpLink(links, now, next) && next !in before.dis
    requires Searching(links, switches, host, payload, before, t, treeBefore, expanded, now, seen)
    ensures Searching(links, switches, host, payload, s, t, tree, expanded, now, seen)
    ensures now in before.dis && s.dis == before.dis[next := before.dis[now] + 1] && before.q <= s.q
  {
    var link := links[now][next];
    s := Search(if next in switches then before.q + [next] else before.q,
                before.dis[next := before.dis[now] + 1],
                before.delay[next := Add64(before.delay[now], link.delay)],
                before.tx[next := Add64(before.tx[now], TxTime(payload, link.bw))],
                before.bw[next := Min(before.bw[now], link.bw)]);
    DiscoverKeepsDiscovery(links, switches, host, before, expanded, now, next, s);
    tree := treeBefore[next := treeBefore[now] + [next]];
    DiscoverKeepsMeasured(links, switches, host, payload, before, treeBefore, now, next, s);
    DiscoverKeepsHops(links, host, before.dis, t, expanded, now, seen, next, before.dis[now] + 1);
  }

  /** Look at one neighbour of `now`. */
  method VisitNeighbour(links: LinkMap, switches: set<Node>, host: Node, payload: nat, before: Search,
      hopsBefore: HopTable, ghost treeBefore: map<Node, seq<Node>>, ghost expanded: set<Node>, now: Node,
      ghost seen: set<Node>, next: Node)
      returns (s: Search, t: HopTable, ghost tree: map<Node, seq<Node>>)
    requires RatesPositive(links) && next !in seen && now in links && next in links[now] && now in before.dis
    requires Searching(links, switches, host, payload, before, hopsBefore, treeBefore, expanded, now, seen)
    ensures Searching(links, switches, host, payload, s, t, tree, expanded, now, seen + {next})
    ensures before.q <= s.q && before.dis.Keys <= s.dis.Keys && s.dis[now] == before.dis[now]
    ensures OthersKept(hopsBefore, t, host)
  {
    s, t, tree := before, hopsBefore, treeBefore;
    if !links[now][next].up {
      SkipKeepsSearching(links, switches, host, payload, s, t, tree, expanded, now, seen, next);
      return;
    }
    if next !in s.dis {
      s, tree := Discover(links, switches, host, payload, before, t, tree, expanded, now, seen, next);
    }
    RecordKeepsSearching(links, switches, host, payload, s, t, tree, expanded, now, seen, next);
    if s.dis[now] + 1 == s.dis[next] {
      t := PushHop(t, next, host, now);
    }
  }

  /** Follow every link of `now`, in the arbitrary order of the interface map. */
  method ExpandNode(links: LinkMap, switches: set<Node>, host: Node, payload: nat, before: Search, hopsBefore: HopTable,
                    ghost treeBefore: map<Node, seq<Node>>, ghost expanded: set<Node>, now: Node)
      returns (s: Search, t: HopTable, ghost tree: map<Node, seq<Node>>)
    requires RatesPositive(links) && now in before.dis
    requires Searching(links, switches, host, payload, before, hopsBefore, treeBefore, expanded, now, {})
    ensures Searching(links, switches, host, payload, s, t, tree, expanded, now, Neighbours(links, now).Keys)
    ensures before.q <= s.q && OthersKept(hopsBefore, t, host)
  {
    s, t, tree := before, hopsBefore, treeBefore;
    var rest := Neighbours(links, now).Keys;
    ghost var seen := {};
    while rest != {}
      invariant seen !! rest && seen + rest == Neighbours(links, now).Keys
      invariant Searching(links, switches, host, payload, s, t, tree, expanded, now, seen)
      invariant before.q <= s.q && now in s.dis && OthersKept(hopsBefore, t, host)
      decreases rest
    {
      var next :| next in rest;
      s, t, tree := VisitNeighbour(links, switches, host, payload, s, t, tree, expanded, now, seen, next);
      rest, seen := rest - {next}, seen + {next};
    }
    assert seen == Neighbours(links, now).Keys;
  }

  /** The state between two expansions. */
  ghost predicate Settled(links: LinkMap, switches: set<Node>, host: Node, payload: nat, s: Search, t: HopTable,
                          tree: map<Node, seq<Node>>, i: nat)
    requires RatesPositive(links)
  {
    && i <= |s.q| && Queued(switches, host, s.q, s.dis) && Reached(links, switches, host, s.dis)
    && Measured(links, switches, host, payload, s, tree)
    && (i < |s.q| ==> forall v :: v in s.dis ==> s.dis[v] <= s.dis[s.q[i]] + 1)
    && AllFollowed(links, s.dis, ToSet(s.q[..i]))
    && HopsSoFar(links, host, s.dis, t, ToSet(s.q[..i]), host, {})
  }

  lemma {:induction false} HopsNoneSeen(links: LinkMap, host: Node, dis: map<Node, nat>, t: HopTable,
      expanded: set<Node>, a: Node, b: Node)
    requires HopsSoFar(links, host, dis, t, expanded, a, {})
    ensures HopsSoFar(links, host, dis, t, expanded, b, {})
  {
    forall v ensures HopsSoFarAt(links, host, dis, t, expanded, b, {}, v) {
      assert HopsSoFarAt(links, host, dis, t, expanded, a, {}, v);
    }
  }

  lemma {:induction false} StartExpansion(links: LinkMap, switches: set<Node>, host: Node, payload: nat, s: Search,
      t: HopTable, tree: map<Node, seq<Node>>, i: nat)
    requires RatesPositive(links) && Settled(links, switches, host, payload, s, t, tree, i) && i < |s.q|
    ensures Searching(links, switches, host, payload, s, t, tree, ToSet(s.q[..i]), s.q[i], {})
  {
    assert s.q[i] in s.q;
    HopsNoneSeen(links, host, s.dis, t, ToSet(s.q[..i]), host, s.q[i]);
  }

  lemma {:induction false} HopsAllSeen(links: LinkMap, host: Node, dis: map<Node, nat>, t: HopTable,
      expanded: set<Node>, now: Node)
    requires HopsSoFar(links, host, dis, t, expanded, now, Neighbours(links, now).Keys)
    ensures HopsSoFar(links, host, dis, t, expanded + {now}, host, {})
  {
    forall v ensures HopsSoFarAt(links, host, dis, t, expanded + {now}, host, {}, v) {
      assert HopsSoFarAt(links, host, dis, t, expanded, now, Neighbours(links, now).Keys, v);
    }
  }

  lemma {:induction false} EndExpansion(links: LinkMap, switches: set<Node>, host: Node, payload: nat, s: Search,
      t: HopTable, tree: map<Node, seq<Node>>, before: seq<Node>, i: nat)
    requires RatesPositive(links) && i < |before| && before <= s.q
    requires Searching(links, switches, host, payload, s, t, tree, ToSet(before[..i]), before[i],
        Neighbours(links, before[i]).Keys)
    ensures Settled(links, switches, host, payload, s, t, tree, i + 1)
  {
    var now := before[i];
    assert s.q[i] == now && s.q[..i] == before[..i];
    assert s.q[..i + 1] == s.q[..i] + [now];
    assert ToSet(s.q[..i + 1]) == ToSet(before[..i]) + {now};
    HopsAllSeen(links, host, s.dis, t, ToSet(before[..i]), now);
    assert Followed(links, s.dis, now);
    forall u {:trigger Followed(links, s.dis, u)} | u in ToSet(s.q[..i + 1]) ensures Followed(links, s.dis, u) {
      assert u in ToSet(before[..i]) || u == now;
    }
  }

  /** With every queued node followed, the distances are those of shortest walks. */
  lemma {:induction false} SearchComplete(links: LinkMap, switches: set<Node>, host: Node, q: seq<Node>,
      dis: map<Node, nat>, v: Node, k: nat)
    requires Queued(switches, host, q, dis) && AllFollowed(links, dis, ToSet(q))
    requires Reach(links, switches, host, v, k)
    ensures v in dis && dis[v] <= k
    decreases k
  {
    if k == 0 {
    } else {
      var u :| UpLink(links, u, v) && Reach(links, switches, host, u, k - 1) && (k == 1 || u in switches);
      SearchComplete(links, switches, host, q, dis, u, k - 1);
      assert u in q && q[..|q|] == q;
      assert Followed(links, dis, u);
    }
  }

  lemma {:induction false} HopsAreExact(links: LinkMap, switches: set<Node>, host: Node, s: Search, t: HopTable,
      v: Node)
    requires Queued(switches, host, s.q, s.dis)
    requires HopsSoFar(links, host, s.dis, t, ToSet(s.q), host, {})
    ensures ExactHops(links, switches, host, s.dis, v, HopsAt(t, v, host))
  {
    assert HopsSoFarAt(links, host, s.dis, t, ToSet(s.q), host, {}, v);
    forall u ensures u in HopsAt(t, v, host) <==> IsNextHop(links, switches, host, s.dis, v, u) {
    }
  }

  lemma {:induction false} SearchEnds(links: LinkMap, switches: set<Node>, host: Node, payload: nat, s: Search,
      t: HopTable, tree: map<Node, seq<Node>>)
    requires RatesPositive(links) && Settled(links, switches, host, payload, s, t, tree, |s.q|)
    ensures Distances(links, switches, host, s.dis)
    ensures forall v :: ExactHops(links, switches, host, s.dis, v, HopsAt(t, v, host))
  {
    assert s.q[..|s.q|] == s.q;
    assert forall v :: v in s.dis ==> Reach(links, switches, host, v, s.dis[v]);
    forall v, k: nat | Reach(links, switches, host, v, k) ensures v in s.dis && s.dis[v] <= k {
      SearchComplete(links, switches, host, s.q, s.dis, v, k);
    }
    forall v ensures ExactHops(links, switches, host, s.dis, v, HopsAt(t, v, host)) {
      HopsAreExact(links, switches, host, s, t, v);
    }
  }

  lemma {:induction false} SearchStarts(links: LinkMap, switches: set<Node>, host: Node, payload: nat, s: Search,
      t: HopTable, tree: map<Node, seq<Node>>)
    requires RatesPositive(links) && forall v :: HopsAt(t, v, host) == []
    requires s == Search([host], map[host := 0], map[host := 0], map[host := 0], map[host := U64 - 1])
    requires tree == map[host := [host]]
    ensures Settled(links, switches, host, payload, s, t, tree, 0)
  {
    assert Reach(links, switches, host, host, 0);
    assert TreePath(links, switches, host, [host]);
    assert MeasuredAt(links, switches, host, payload, s, [host], host);
  }

  ghost function NodesOf(links: LinkMap, host: Node): set<Node> {
    {host} + set a, b | a in links && b in links[a] :: b
  }

  lemma {:induction false} ReachedIsNode(links: LinkMap, switches: set<Node>, host: Node, v: Node, k: nat)
    requires Reach(links, switches, host, v, k)
    ensures v in NodesOf(links, host)
  {
    if k > 0 {
      var u :| UpLink(links, u, v) && Reach(links, switches, host, u, k - 1) && (k == 1 || u in switches);
    }
  }

  /** The queue cannot grow beyond the nodes of the network. */
  lemma {:induction false} QueueFits(links: LinkMap, switches: set<Node>, host: Node, payload: nat, s: Search,
      t: HopTable, tree: map<Node, seq<Node>>, i: nat)
    requires RatesPositive(links) && Settled(links, switches, host, payload, s, t, tree, i) && i < |s.q|
    ensures i < |NodesOf(links, host)|
  {
    forall j | 0 <= j < |s.q| ensures s.q[j] in NodesOf(links, host) {
      assert s.q[j] in s.dis && Reach(links, switches, host, s.q[j], s.dis[s.q[j]]);
      ReachedIsNode(links, switches, host, s.q[j], s.dis[s.q[j]]);
    }
    DistinctFits(s.q, NodesOf(links, host));
  }

  /** The whole search from `host`, on a table without entries for it. */
  method SearchFrom(links: LinkMap, switches: set<Node>, host: Node, payload: nat, hopsBefore: HopTable)
      returns (s: Search, t: HopTable, ghost tree: map<Node, seq<Node>>)
    requires RatesPositive(links) && forall v :: HopsAt(hopsBefore, v, host) == []
    ensures Distances(links, switches, host, s.dis) && Measured(links, switches, host, payload, s, tree)
    ensures forall v :: ExactHops(links, switches, host, s.dis, v, HopsAt(t, v, host))
    ensures OthersKept(hopsBefore, t, host)
  {
    s := Search([host], map[host := 0], map[host := 0], map[host := 0], map[host := U64 - 1]);
    t, tree := hopsBefore, map[host := [host]];
    SearchStarts(links, switches, host, payload, s, t, tree);
    var i := 0;
    while i < |s.q|
      invariant Settled(links, switches, host, payload, s, t, tree, i) && OthersKept(hopsBefore, t, host)
      decreases |NodesOf(links, host)| - i
    {
      ghost var q := s.q;
      StartExpansion(links, switches, host, payload, s, t, tree, i);
      QueueFits(links, switches, host, payload, s, t, tree, i);
      s, t, tree := ExpandNode(links, switches, host, payload, s, t, tree, ToSet(q[..i]), s.q[i]);
      EndExpansion(links, switches, host, payload, s, t, tree, q, i);
      i := i + 1;
    }
    SearchEnds(links, switches, host, payload, s, t, tree);
  }
}
