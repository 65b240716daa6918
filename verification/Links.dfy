/** The simulated network as data: interfaces between numbered nodes, walks that pass
    only through switches, distances, and forwarding along next hops. */
module Links {
  import opened Common
  import opened Digraph
  import opened Division

  type Node = nat

  /** One direction of a link. Delays and rates are 64-bit unsigned. */
  datatype Interface = Interface(idx: int, up: bool, delay: nat, bw: nat)

  type LinkMap = map<Node, map<Node, Interface>>

  const U64 := 0x1_0000_0000_0000_0000

  function Neighbours(links: LinkMap, v: Node): map<Node, Interface> {
    if v in links then links[v] else map[]
  }

  predicate UpLink(links: LinkMap, a: Node, b: Node) {
    b in Neighbours(links, a) && Neighbours(links, a)[b].up
  }

  /** Links come up and go down in both directions together. */
  ghost predicate Symmetric(links: LinkMap) {
    forall a, b :: UpLink(links, a, b) ==> UpLink(links, b, a)
  }

  /** No link that is up has rate zero. */
  ghost predicate RatesPositive(links: LinkMap) {
    forall a, b :: UpLink(links, a, b) ==> links[a][b].bw > 0
  }

  // ----- Reachability without passing through hosts

  /** A walk of `k` up-links leads from `host` to `v`, and every node strictly between
      them is a switch. */
  ghost predicate Reach(links: LinkMap, switches: set<Node>, host: Node, v: Node, k: nat)
    decreases k
  {
    if k == 0 then v == host
    else exists u :: UpLink(links, u, v) && Reach(links, switches, host, u, k - 1) && (k == 1 || u in switches)
  }

  /** `dis` holds exactly the reachable nodes, each with the length of a shortest such walk. */
  ghost predicate Distances(links: LinkMap, switches: set<Node>, host: Node, dis: map<Node, nat>) {
    && (forall v :: v in dis ==> Reach(links, switches, host, v, dis[v]))
    && (forall v, k: nat :: Reach(links, switches, host, v, k) ==> v in dis && dis[v] <= k)
  }

  /** The nodes a packet for `host` may be handed to at `v`. */
  ghost predicate IsNextHop(links: LinkMap, switches: set<Node>, host: Node, dis: map<Node, nat>, v: Node, u: Node) {
    && v in dis && u in dis && dis[u] + 1 == dis[v]
    && UpLink(links, u, v) && (u == host || u in switches)
  }

  /** `hops(v)` lists every next hop once, and nothing else. */
  ghost predicate ExactHops(links: LinkMap, switches: set<Node>, host: Node, dis: map<Node, nat>, v: Node,
      hops: seq<Node>)
  {
    Distinct(hops) && forall u :: u in hops <==> IsNextHop(links, switches, host, dis, v, u)
  }

  lemma DistancesUnique(links: LinkMap, switches: set<Node>, host: Node, a: map<Node, nat>, b: map<Node, nat>)
    requires Distances(links, switches, host, a) && Distances(links, switches, host, b)
    ensures a == b
  {
    forall v ensures v in a <==> v in b {
      assert v in a ==> Reach(links, switches, host, v, a[v]);
      assert v in b ==> Reach(links, switches, host, v, b[v]);
    }
    forall v | v in a ensures a[v] == b[v] {
      assert Reach(links, switches, host, v, a[v]) && Reach(links, switches, host, v, b[v]);
    }
  }

  // ----- Measured paths

  ghost predicate UpWalk(links: LinkMap, p: seq<Node>) {
    forall i {:trigger p[i]} :: 0 <= i < |p| - 1 ==> UpLink(links, p[i], p[i + 1])
  }

  /** A walk from `host` over up-links, all its inner nodes switches. */
  ghost predicate TreePath(links: LinkMap, switches: set<Node>, host: Node, p: seq<Node>) {
    && |p| > 0 && p[0] == host && UpWalk(links, p)
    && (forall i :: 0 < i < |p| - 1 ==> p[i] in switches)
  }

  lemma {:induction false} PathOfReach(links: LinkMap, switches: set<Node>, host: Node, v: Node, k: nat)
      returns (p: seq<Node>)
    requires Reach(links, switches, host, v, k)
    ensures TreePath(links, switches, host, p) && |p| == k + 1 && p[k] == v
    decreases k
  {
    if k == 0 {
      p := [host];
    } else {
      var u :| UpLink(links, u, v) && Reach(links, switches, host, u, k - 1) && (k == 1 || u in switches);
      var before := PathOfReach(links, switches, host, u, k - 1);
      p := before + [v];
      forall i {:trigger p[i]} | 0 <= i < |p| - 1 ensures UpLink(links, p[i], p[i + 1]) {
        assert p[i] == before[i];
        assert i < k - 1 ==> p[i + 1] == before[i + 1];
      }
      forall i | 0 < i < |p| - 1 ensures p[i] in switches {
        assert p[i] == before[i];
      }
    }
  }

  lemma {:induction false} ReachOfPath(links: LinkMap, switches: set<Node>, host: Node, p: seq<Node>)
    requires TreePath(links, switches, host, p)
    ensures Reach(links, switches, host, p[|p| - 1], |p| - 1)
  {
    var k := |p| - 1;
    if k > 0 {
      var before := p[..k];
      assert forall i {:trigger before[i]} :: 0 <= i < |before| ==> before[i] == p[i];
      ReachOfPath(links, switches, host, before);
      assert p[k - 1 + 1] == p[k] && UpLink(links, p[k - 1], p[k]);
      assert k == 1 || p[k - 1] in switches;
    }
  }

  /** A node is reached in `k` steps exactly when a path of `k` up-links leads to it from the host whose
      inner nodes are all switches. */
  lemma ReachIsPath(links: LinkMap, switches: set<Node>, host: Node, v: Node, k: nat)
    ensures Reach(links, switches, host, v, k) <==>
              exists p :: TreePath(links, switches, host, p) && |p| == k + 1 && p[k] == v
  {
    if Reach(links, switches, host, v, k) {
      var p := PathOfReach(links, switches, host, v, k);
    }
    if p :| TreePath(links, switches, host, p) && |p| == k + 1 && p[k] == v {
      ReachOfPath(links, switches, host, p);
    }
  }

  function Add64(a: nat, b: nat): nat { (a + b) % U64 }

  /** Time to put one packet on the wire, in the source's unsigned arithmetic. */
  function TxTime(payload: nat, bw: nat): nat
    requires bw > 0
  {
    payload * 1000000000 % U64 * 8 % U64 / bw
  }

  ghost function PathDelay(links: LinkMap, p: seq<Node>): nat
    requires UpWalk(links, p)
  {
    if |p| <= 1 then 0
    else
      assert UpLink(links, p[|p| - 2], p[|p| - 2 + 1]);
      Add64(PathDelay(links, p[..|p| - 1]), links[p[|p| - 2]][p[|p| - 1]].delay)
  }

  ghost function PathTx(links: LinkMap, payload: nat, p: seq<Node>): nat
    requires RatesPositive(links)
    requires UpWalk(links, p)
  {
    if |p| <= 1 then 0
    else
      assert UpLink(links, p[|p| - 2], p[|p| - 2 + 1]);
      Add64(PathTx(links, payload, p[..|p| - 1]), TxTime(payload, links[p[|p| - 2]][p[|p| - 1]].bw))
  }

  ghost function PathBw(links: LinkMap, p: seq<Node>): nat
    requires UpWalk(links, p)
  {
    if |p| <= 1 then U64 - 1
    else
      assert UpLink(links, p[|p| - 2], p[|p| - 2 + 1]);
      Min(PathBw(links, p[..|p| - 1]), links[p[|p| - 2]][p[|p| - 1]].bw)
  }

  lemma {:induction false} ModulusShift(x: nat, m: nat, q: nat)
    requires m > 0
    ensures (x + m * q) % m == x % m
    decreases q
  {
    if q == 0 {
    } else {
      ModulusShift(x, m, q - 1);
      OneMore(x + m * (q - 1), m);
      assert x + m * q == x + m * (q - 1) + m;
    }
  }

  lemma ModulusOfSum(a: nat, b: nat, m: nat)
    requires m > 0
    ensures (a % m + b) % m == (a + b) % m
  {
    var q := a / m;
    assert a == m * q + a % m;
    assert a + b == (a % m + b) + m * q;
    ModulusShift(a % m + b, m, q);
  }

  /** The delay of a path is the sum of its links' delays, modulo 2 to the 64. */
  lemma {:induction false} DelayIsSum(links: LinkMap, p: seq<Node>, delays: seq<nat>)
    requires UpWalk(links, p) && p != [] && |delays| == |p| - 1
    requires forall i {:trigger delays[i]} :: 0 <= i < |delays| ==>
               UpLink(links, p[i], p[i + 1]) && delays[i] == links[p[i]][p[i + 1]].delay
    ensures PathDelay(links, p) == SumOf(delays) % 0x1_0000_0000_0000_0000
  {
    if |p| > 1 {
      var before, last := delays[..|delays| - 1], delays[|delays| - 1];
      DelayIsSum(links, p[..|p| - 1], before);
      assert last == links[p[|p| - 2]][p[|p| - 1]].delay;
      ModulusOfSum(SumOf(before), last, U64);
    }
  }

  /** Where nothing wraps around, the transmission time of a packet of `payload` bytes at `bw` bits per
      second is the number of whole nanoseconds its bits take. */
  lemma TxTimeIsFloor(payload: nat, bw: nat)
    requires bw > 0 && payload * 8000000000 < 0x1_0000_0000_0000_0000
    ensures TxTime(payload, bw) * bw <= payload * 8 * 1000000000 < (TxTime(payload, bw) + 1) * bw
  {
    var bits := payload * 8000000000;
    assert payload * 1000000000 % U64 == payload * 1000000000;
    assert bits == bw * (bits / bw) + bits % bw;
  }

  /** The transmission time of a path is that of its links one after the other, modulo 2 to the 64. */
  lemma {:induction false} TxIsSum(links: LinkMap, payload: nat, p: seq<Node>, times: seq<nat>)
    requires RatesPositive(links) && UpWalk(links, p) && p != [] && |times| == |p| - 1
    requires forall i {:trigger times[i]} :: 0 <= i < |times| ==>
               UpLink(links, p[i], p[i + 1]) && times[i] == TxTime(payload, links[p[i]][p[i + 1]].bw)
    ensures PathTx(links, payload, p) == SumOf(times) % 0x1_0000_0000_0000_0000
  {
    if |p| > 1 {
      var before, last := times[..|times| - 1], times[|times| - 1];
      TxIsSum(links, payload, p[..|p| - 1], before);
      assert last == TxTime(payload, links[p[|p| - 2]][p[|p| - 1]].bw);
      ModulusOfSum(SumOf(before), last, U64);
    }
  }

  /** The bottleneck is a lower bound of the rates along the path, and one of them. */
  lemma {:induction false} BottleneckIsMinimum(links: LinkMap, p: seq<Node>)
    requires UpWalk(links, p)
    ensures forall i {:trigger p[i]} :: 0 <= i < |p| - 1 ==> PathBw(links, p) <= links[p[i]][p[i + 1]].bw
    ensures PathBw(links, p) == U64 - 1
        || exists i {:trigger p[i]} :: 0 <= i < |p| - 1 && PathBw(links, p) == links[p[i]][p[i + 1]].bw
  {
    if |p| > 1 {
      var q := p[..|p| - 1];
      assert forall i {:trigger p[i]} :: 0 <= i < |q| ==> p[i] == q[i];
      BottleneckIsMinimum(links, q);
      forall i {:trigger p[i]} | 0 <= i < |p| - 1 ensures PathBw(links, p) <= links[p[i]][p[i + 1]].bw {
        if i < |q| - 1 {
          assert q[i] == p[i] && q[i + 1] == p[i + 1];
        }
      }
      if PathBw(links, p) != U64 - 1 {
        if PathBw(links, p) == links[p[|p| - 2]][p[|p| - 1]].bw {
        } else {
          var i :| 0 <= i < |q| - 1 && PathBw(links, q) == links[q[i]][q[i + 1]].bw;
          assert p[i] == q[i] && p[i + 1] == q[i + 1];
        }
      }
    }
  }

  // ----- Forwarding

  lemma PreviousIsCloser(links: LinkMap, switches: set<Node>, host: Node, dis: map<Node, nat>, v: Node, u: Node)
    requires Distances(links, switches, host, dis) && v in dis && dis[v] > 0
    requires UpLink(links, u, v) && Reach(links, switches, host, u, dis[v] - 1) && (dis[v] == 1 || u in switches)
    ensures IsNextHop(links, switches, host, dis, v, u)
  {
    assert u in dis && dis[u] <= dis[v] - 1;
    assert Reach(links, switches, host, u, dis[u]);
    if u in switches {
      assert Reach(links, switches, host, v, dis[u] + 1);
    } else {
      assert Reach(links, switches, host, u, 0);
      assert Reach(links, switches, host, v, 1);
    }
  }

  /** A routed node other than the host has a next hop. */
  lemma RoutedHasHop(links: LinkMap, switches: set<Node>, host: Node, dis: map<Node, nat>, v: Node, hops: seq<Node>)
    requires Distances(links, switches, host, dis) && ExactHops(links, switches, host, dis, v, hops)
    requires v in dis && v != host
    ensures hops != []
  {
    assert Reach(links, switches, host, v, dis[v]);
    var u :| UpLink(links, u, v) && Reach(links, switches, host, u, dis[v] - 1) && (dis[v] == 1 || u in switches);
    PreviousIsCloser(links, switches, host, dis, v, u);
    assert u in hops;
  }

  /** A sequence of forwarding decisions: each node hands the packet to one of its hops. */
  ghost predicate Forwarded(hops: map<Node, seq<Node>>, p: seq<Node>) {
    |p| > 0 && forall i {:trigger p[i]} :: 0 <= i < |p| - 1 ==> p[i] in hops && p[i + 1] in hops[p[i]]
  }

  /** Every node but the host itself has its exact next hops installed. */
  ghost predicate Installed(links: LinkMap, switches: set<Node>, host: Node, dis: map<Node, nat>,
                            hops: map<Node, seq<Node>>) {
    && (forall v :: v in hops ==> ExactHops(links, switches, host, dis, v, hops[v]))
    && (forall v :: v in dis && v != host ==> v in hops)
  }

  lemma {:induction false} HopsGetCloser(links: LinkMap, switches: set<Node>, host: Node, dis: map<Node, nat>,
                                         hops: map<Node, seq<Node>>, p: seq<Node>, i: nat)
    requires Installed(links, switches, host, dis, hops)
    requires Forwarded(hops, p) && p[0] in dis && i < |p|
    ensures p[i] in dis && dis[p[i]] + i == dis[p[0]]
    ensures i > 0 ==> UpLink(links, p[i], p[i - 1]) && (p[i] == host || p[i] in switches)
  {
    if i == 0 {
    } else {
      HopsGetCloser(links, switches, host, dis, hops, p, i - 1);
      assert p[i - 1 + 1] in hops[p[i - 1]];
      assert IsNextHop(links, switches, host, dis, p[i - 1], p[i]);
    }
  }

  lemma {:induction false} GapsClose(links: LinkMap, switches: set<Node>, host: Node, dis: map<Node, nat>,
                                     hops: map<Node, seq<Node>>, p: seq<Node>)
    requires Installed(links, switches, host, dis, hops) && Forwarded(hops, p) && p[0] in dis
    ensures Distinct(p) && |p| <= dis[p[0]] + 1
    ensures p[|p| - 1] in dis && dis[p[|p| - 1]] + |p| == dis[p[0]] + 1
  {
    HopsGetCloser(links, switches, host, dis, hops, p, |p| - 1);
    forall i, j | 0 <= i < j < |p| ensures p[i] != p[j] {
      HopsGetCloser(links, switches, host, dis, hops, p, i);
      HopsGetCloser(links, switches, host, dis, hops, p, j);
    }
  }

  lemma ZeroIsHost(links: LinkMap, switches: set<Node>, host: Node, dis: map<Node, nat>, v: Node)
    requires Distances(links, switches, host, dis) && v in dis
    ensures dis[v] == 0 <==> v == host
  {
    assert Reach(links, switches, host, v, dis[v]);
    assert Reach(links, switches, host, host, 0);
  }

  /** Whatever next hops are chosen, each one is exactly one step closer to the host, goes
      over a link that is up, and is a switch unless it is the host; so no packet can
      travel further than its distance, none comes back to a node, and one that cannot be
      forwarded has arrived. */
  lemma {:induction false} ForwardingIsLoopFree(links: LinkMap, switches: set<Node>, host: Node, dis: map<Node, nat>,
                                                hops: map<Node, seq<Node>>, p: seq<Node>)
    requires Symmetric(links) && Distances(links, switches, host, dis)
    requires Installed(links, switches, host, dis, hops)
    requires Forwarded(hops, p) && p[0] in dis
    ensures UpWalk(links, p) && Distinct(p) && |p| <= dis[p[0]] + 1
    ensures forall i :: 0 < i < |p| ==> p[i] == host || p[i] in switches
    ensures p[|p| - 1] == host <==> |p| == dis[p[0]] + 1
    ensures p[|p| - 1] != host ==> p[|p| - 1] in hops && hops[p[|p| - 1]] != []
  {
    var last := p[|p| - 1];
    GapsClose(links, switches, host, dis, hops, p);
    forall i {:trigger p[i]} | 0 <= i < |p| - 1 ensures UpLink(links, p[i], p[i + 1]) {
      HopsGetCloser(links, switches, host, dis, hops, p, i + 1);
    }
    forall i | 0 < i < |p| ensures p[i] == host || p[i] in switches {
      HopsGetCloser(links, switches, host, dis, hops, p, i);
    }
    ZeroIsHost(links, switches, host, dis, last);
    if last != host {
      RoutedHasHop(links, switches, host, dis, last, hops[last]);
    }
  }
}
