/** What backprojection computes, read off the flows themselves: which flows are used and with
    what residual, and what every row of the table and every counter says. */
module FlowTables {
  import opened Common
  import opened Backprojection

  /** Every hop of the path has a known delay. */
  ghost predicate AllKnown(t: Topology, path: seq<int>) {
    forall i, j :: 0 <= i < |path| && j == i + 1 && j < |path| ==> (path[i], path[j]) in t.delay
  }

  /** These are the delays of the hops of the path. */
  ghost predicate DelaysOf(t: Topology, path: seq<int>, delays: seq<real>) {
    && AllKnown(t, path) && |path| > 0 && |delays| == |path| - 1
    && forall i, j :: 0 <= i < |path| && j == i + 1 && j < |path| ==> delays[i] == t.delay[(path[i], path[j])]
  }

  lemma {:induction false} BaselineIsSum(t: Topology, path: seq<int>, delays: seq<real>)
    requires DelaysOf(t, path, delays)
    requires forall e :: e in PathEdges(path) ==> e in t.delay
    ensures BaselineDelay(t, PathEdges(path)) == SumReal(delays)
  {
    if |path| < 2 {
    } else {
      var init := path[..|path| - 1];
      var edges, before := PathEdges(path), PathEdges(init);
      assert edges[..|edges| - 1] == before;
      assert forall e :: e in before ==> e in edges;
      BaselineIsSum(t, init, delays[..|delays| - 1]);
    }
  }

  lemma KnownEdges(t: Topology, path: seq<int>)
    ensures AllKnown(t, path) <==> forall e :: e in PathEdges(path) ==> e in t.delay
    ensures AllKnown(t, path) <==> !exists i :: 0 <= i < |PathEdges(path)| && PathEdges(path)[i] !in t.delay
  {
    var edges := PathEdges(path);
    if AllKnown(t, path) {
      forall i | 0 <= i < |edges| ensures edges[i] in t.delay {
        assert edges[i] == (path[i], path[i + 1]);
      }
    } else {
      var i, j :| 0 <= i < |path| && j == i + 1 && j < |path| && (path[i], path[j]) !in t.delay;
      var e := edges[i];
      assert e == (path[i], path[j]) && e in edges && e !in t.delay;
    }
  }

  /** What becomes of a flow whose path has no hop, or a hop without a known delay. */
  lemma UnusableExact(t: Topology, cfg: Settings, flow: Flow)
    ensures Classify(t, cfg, flow).MissingRoute? <==> |flow.path| < 2
    ensures Classify(t, cfg, flow).MissingPathEdge? <==> |flow.path| >= 2 && !AllKnown(t, flow.path)
  {
    KnownEdges(t, flow.path);
    assert PathEdges(flow.path) == [] <==> |flow.path| < 2;
  }

  /** What becomes of any other flow: its residual is its completion time less the delays of its
      hops; below the minimum it is left out, otherwise it is used, with the residual. */
  lemma UsableExact(t: Topology, cfg: Settings, flow: Flow, delays: seq<real>)
    requires |flow.path| >= 2 && DelaysOf(t, flow.path, delays)
    ensures var residual, o := flow.fct as real - SumReal(delays), Classify(t, cfg, flow);
            && (o.BelowMinDelta? <==> residual < cfg.minDelta)
            && (o.Used? <==> residual >= cfg.minDelta)
            && (o.Used? ==> o.delta == residual)
  {
    KnownEdges(t, flow.path);
    BaselineIsSum(t, flow.path, delays);
  }

  lemma ProjectedExact(cfg: Settings, flow: Flow, delta: real)
    ensures cfg.normalizeSize && flow.size > 0 ==> Projected(cfg, flow, delta) * flow.size as real == delta
    ensures !(cfg.normalizeSize && flow.size > 0) ==> Projected(cfg, flow, delta) == delta
  {
  }

  lemma ShareExact(value: real, n: nat)
    requires n > 0
    ensures EqualShare(value, n) * n as real == value
  {
  }

  /** The value a used flow projects is its residual, per byte when sizes are normalised and the size
      is positive, and its share is what each hop gets when they all get the same. */
  lemma UsedExact(t: Topology, cfg: Settings, flow: Flow)
    requires Classify(t, cfg, flow).Used?
    ensures var o := Classify(t, cfg, flow);
            && (cfg.normalizeSize && flow.size > 0 ==> o.value * flow.size as real == o.delta)
            && (!(cfg.normalizeSize && flow.size > 0) ==> o.value == o.delta)
            && |flow.path| >= 2 && o.share * (|flow.path| - 1) as real == o.value
  {
    var o := Classify(t, cfg, flow);
    ProjectedExact(cfg, flow, o.delta);
    ShareExact(o.value, |flow.path| - 1);
  }

  // ----- The inputs

  /** The delay of a directed edge is that of the last line between its nodes that gives one. */
  lemma {:induction false} LastDelayExact(lines: seq<LinkLine>, e: Edge, i: nat)
    requires i < |lines| && Joins(lines[i], e) && lines[i].delay.Some?
    requires forall j :: i < j < |lines| && Joins(lines[j], e) ==> lines[j].delay.None?
    ensures LastDelay(lines, e) == lines[i].delay
  {
    if i == |lines| - 1 {
    } else {
      var init := lines[..|lines| - 1];
      assert forall j :: i < j < |init| ==> init[j] == lines[j];
      LastDelayExact(init, e, i);
    }
  }

  lemma {:induction false} NoDelayExact(lines: seq<LinkLine>, e: Edge)
    requires forall j :: 0 <= j < |lines| && Joins(lines[j], e) ==> lines[j].delay.None?
    ensures LastDelay(lines, e) == None
  {
    if lines == [] {
    } else {
      var init := lines[..|lines| - 1];
      assert forall j :: 0 <= j < |init| ==> init[j] == lines[j];
      NoDelayExact(init, e);
    }
  }

  /** Group `k` of equal neighbours: from `at[k]` up to the start of the next group every node of the
      long path is node `k` of the short one, which differs from the node after it. */
  ghost predicate Group(long: seq<int>, short: seq<int>, at: seq<nat>, k: nat)
    requires k < |at| == |short|
  {
    var end := if k + 1 < |at| then at[k + 1] else |long|;
    && at[k] < end <= |long| && (forall i :: at[k] <= i < end ==> long[i] == short[k])
    && (k + 1 < |at| ==> short[k] != short[k + 1])
  }

  ghost predicate Groups(long: seq<int>, short: seq<int>, at: seq<nat>) {
    && |at| == |short| && (at == [] <==> long == []) && (at != [] ==> at[0] == 0)
    && forall k :: 0 <= k < |at| ==> Group(long, short, at, k)
  }

  lemma SameGroup(long: seq<int>, short: seq<int>, at: seq<nat>)
    requires |long| >= 2 && long[|long| - 2] == long[|long| - 1]
    requires Groups(long[..|long| - 1], short, at)
    ensures Groups(long, short, at)
  {
    var init := long[..|long| - 1];
    forall k | 0 <= k < |at| ensures Group(long, short, at, k) {
      assert Group(init, short, at, k);
      assert k == |at| - 1 ==> init[|init| - 1] == short[k];
    }
  }

  lemma NewGroup(long: seq<int>, short: seq<int>, before: seq<nat>)
    requires long != [] && short != [] && short[|short| - 1] == long[|long| - 1]
    requires |long| >= 2 ==> long[|long| - 2] != long[|long| - 1]
    requires Groups(long[..|long| - 1], short[..|short| - 1], before)
    ensures Groups(long, short, before + [|long| - 1])
  {
    var init, front, at := long[..|long| - 1], short[..|short| - 1], before + [|long| - 1];
    forall k | 0 <= k < |at| ensures Group(long, short, at, k) {
      if k < |before| {
        assert Group(init, front, before, k);
        assert k == |before| - 1 ==> init[|init| - 1] == front[k];
      }
    }
  }

  /** Merging keeps one node of every group of equal neighbours, and nothing else. */
  lemma {:induction false} MergedGroups(long: seq<int>, short: seq<int>) returns (at: seq<nat>)
    requires Merges(long, short)
    ensures Groups(long, short, at)
  {
    at := [];
    if long != [] {
      var init, last := long[..|long| - 1], long[|long| - 1];
      if init != [] && init[|init| - 1] == last {
        at := MergedGroups(init, short);
        SameGroup(long, short, at);
      } else {
        var before := MergedGroups(init, short[..|short| - 1]);
        at := before + [|init|];
        NewGroup(long, short, before);
      }
    }
  }

  // ----- The rows

  /** The hops of the path over a directed edge. */
  ghost function HopsOver(path: seq<int>, e: Edge): set<nat> {
    set i: nat | i < |PathEdges(path)| && PathEdges(path)[i] == e
  }

  lemma OneMoreHop(path: seq<int>, e: Edge)
    requires |path| >= 2
    ensures var n := |path|;
            |HopsOver(path, e)| == |HopsOver(path[..n - 1], e)| + if (path[n - 2], path[n - 1]) == e then 1 else 0
  {
    var n, edges, before := |path|, PathEdges(path), PathEdges(path[..|path| - 1]);
    var last: set<nat> := if (path[n - 2], path[n - 1]) == e then {n - 2} else {};
    assert edges == before + [(path[n - 2], path[n - 1])];
    assert HopsOver(path, e) == HopsOver(path[..n - 1], e) + last && HopsOver(path[..n - 1], e) !! last;
  }

  lemma {:induction false} OccurrencesCounted(path: seq<int>, e: Edge)
    ensures Occurrences(PathEdges(path), e) == |HopsOver(path, e)|
  {
    if |path| < 2 {
      assert HopsOver(path, e) == {};
    } else {
      OccurrencesCounted(path[..|path| - 1], e);
      var edges := PathEdges(path);
      assert edges[..|edges| - 1] == PathEdges(path[..|path| - 1]);
      OneMoreHop(path, e);
    }
  }

  /** What flow `i` puts on edge `e`: its share once per hop over the edge. */
  ghost predicate PartsOf(c: Classifier, flows: seq<Flow>, e: Edge, counts: seq<nat>, parts: seq<real>) {
    && |counts| == |parts| == |flows|
    && forall i :: 0 <= i < |flows| ==>
         && counts[i] == (if c(flows[i]).Used? then |HopsOver(flows[i].path, e)| else 0)
         && parts[i] == (if c(flows[i]).Used? then Shares(c(flows[i]).share, counts[i]) else 0.0)
  }

  lemma PartIs(c: Classifier, flow: Flow, e: Edge)
    ensures var r, n := Contribution(c, flow, e), |HopsOver(flow.path, e)|;
            && r.count == (if c(flow).Used? then n else 0) as real
            && r.score == if c(flow).Used? then Shares(c(flow).share, n) else 0.0
  {
    OccurrencesCounted(flow.path, e);
  }

  lemma RowNext(c: Classifier, flows: seq<Flow>, e: Edge)
    requires flows != []
    ensures RowOf(c, flows, e) ==
              Merge(RowOf(c, flows[..|flows| - 1], e), Contribution(c, flows[|flows| - 1], e))
  {
  }

  lemma {:induction false} RowSums(c: Classifier, flows: seq<Flow>, e: Edge, counts: seq<nat>, parts: seq<real>)
    requires PartsOf(c, flows, e, counts, parts)
    ensures RowOf(c, flows, e).count == SumOf(counts) as real && RowOf(c, flows, e).score == SumReal(parts)
  {
    if flows == [] {
    } else {
      var n := |flows| - 1;
      RowSums(c, flows[..n], e, counts[..n], parts[..n]);
      PartIs(c, flows[n], e);
      var before, part := RowOf(c, flows[..n], e), Contribution(c, flows[n], e);
      assert RowOf(c, flows, e) == Merge(before, part) by {
        RowNext(c, flows, e);
      }
      assert part.count == counts[n] as real && part.score == parts[n];
      assert SumOf(counts) == SumOf(counts[..n]) + counts[n] && SumReal(parts) == SumReal(parts[..n]) + parts[n];
    }
  }

  /** The flow is used and crosses the edge. */
  ghost predicate Crosses(c: Classifier, flow: Flow, e: Edge) {
    c(flow).Used? && HopsOver(flow.path, e) != {}
  }

  lemma {:induction false} RowPeak(c: Classifier, flows: seq<Flow>, e: Edge)
    ensures forall i :: 0 <= i < |flows| && Crosses(c, flows[i], e) ==> c(flows[i]).delta <= RowOf(c, flows, e).maxDelta
    ensures RowOf(c, flows, e).maxDelta == 0.0
         || exists i :: 0 <= i < |flows| && Crosses(c, flows[i], e) && c(flows[i]).delta == RowOf(c, flows, e).maxDelta
  {
    if flows == [] {
    } else {
      var init, last := flows[..|flows| - 1], flows[|flows| - 1];
      RowPeak(c, init, e);
      OccurrencesCounted(last.path, e);
      var row, before := RowOf(c, flows, e), RowOf(c, init, e);
      assert flows[|init|] == last;
      if row.maxDelta == before.maxDelta && before.maxDelta != 0.0 {
        var i :| 0 <= i < |init| && Crosses(c, init[i], e) && c(init[i]).delta == before.maxDelta;
        assert flows[i] == init[i];
      }
      forall i | 0 <= i < |flows| && Crosses(c, flows[i], e) ensures c(flows[i]).delta <= row.maxDelta {
        if i < |init| {
          assert init[i] == flows[i];
        }
      }
    }
  }

  lemma CrossedExact(c: Classifier, flows: seq<Flow>, e: Edge)
    ensures e in AllCrossed(c, flows) <==> exists i :: 0 <= i < |flows| && Crosses(c, flows[i], e)
  {
    CrossedBySome(c, flows, e);
    forall flow ensures e in Crossed(c, flow) <==> Crosses(c, flow, e) {
      OccurrencesCounted(flow.path, e);
      NotYetCrossed(PathEdges(flow.path), e);
    }
  }

  /** A row of the table: its score is the sum of the shares, its count the number of hops over the
      edge, and its largest residual that of the used flows that cross it (0 without one). */
  lemma RowExact(t: Topology, cfg: Settings, flows: seq<Flow>, scores: map<Edge, Row>, e: Edge,
                 counts: seq<nat>, parts: seq<real>)
    requires TableOf(t.edges, By(t, cfg), flows, scores) && PartsOf(By(t, cfg), flows, e, counts, parts)
    ensures e in scores <==> e in t.edges || exists i :: 0 <= i < |flows| && Crosses(By(t, cfg), flows[i], e)
    ensures e in scores ==> scores[e].score == SumReal(parts) && scores[e].count == SumOf(counts) as real
    ensures e in scores ==> scores[e].maxDelta >= 0.0
    ensures e in scores ==> forall i :: 0 <= i < |flows| && Crosses(By(t, cfg), flows[i], e) ==>
                              By(t, cfg)(flows[i]).delta <= scores[e].maxDelta
    ensures e in scores && scores[e].maxDelta != 0.0 ==> exists i ::
              0 <= i < |flows| && Crosses(By(t, cfg), flows[i], e) && By(t, cfg)(flows[i]).delta == scores[e].maxDelta
  {
    var c := By(t, cfg);
    RowSums(c, flows, e, counts, parts);
    RowPeak(c, flows, e);
    CrossedExact(c, flows, e);
    if e in scores {
      assert scores[e] == RowOf(c, flows, e);
    }
  }

  // ----- The counters

  datatype Kind = Routeless | Unknown | Small | InUse

  predicate IsOf(o: Outcome, k: Kind) {
    match k
    case Routeless => o.MissingRoute?
    case Unknown => o.MissingPathEdge?
    case Small => o.BelowMinDelta?
    case InUse => o.Used?
  }

  /** The positions of the flows with such an outcome. */
  ghost function Having(c: Classifier, flows: seq<Flow>, k: Kind): set<nat> {
    set i: nat | i < |flows| && IsOf(c(flows[i]), k)
  }

  lemma OneMoreHaving(c: Classifier, flows: seq<Flow>, k: Kind)
    requires flows != []
    ensures var n := |flows| - 1;
            |Having(c, flows, k)| == |Having(c, flows[..n], k)| + if IsOf(c(flows[n]), k) then 1 else 0
  {
    var n, init := |flows| - 1, flows[..|flows| - 1];
    var all, before := Having(c, flows, k), Having(c, init, k);
    forall i: nat ensures i in all <==> i in before || (i == n && IsOf(c(flows[n]), k)) {
      assert i < n ==> init[i] == flows[i];
    }
    if IsOf(c(flows[n]), k) {
      assert all == before + {n};
    } else {
      assert all == before;
    }
  }

  /** Each counter is the number of flows with its outcome. */
  lemma {:induction false} StatsExact(c: Classifier, flows: seq<Flow>)
    ensures var s := StatsOf(c, flows);
            && s.parsed == |flows| && s.missingRoutes == |Having(c, flows, Routeless)|
            && s.missingPathEdges == |Having(c, flows, Unknown)| && s.belowMinDelta == |Having(c, flows, Small)|
            && s.used == |Having(c, flows, InUse)|
  {
    if flows == [] {
    } else {
      StatsExact(c, flows[..|flows| - 1]);
      OneMoreHaving(c, flows, Routeless);
      OneMoreHaving(c, flows, Unknown);
      OneMoreHaving(c, flows, Small);
      OneMoreHaving(c, flows, InUse);
    }
  }

  // ----- The report

  /** The row of an undirected link: with one direction in the table, that one's; with both, scores and
      counts added up, and the larger of the largest residuals. */
  lemma FoldedRow(scores: map<Edge, Row>, links: map<Edge, Row>, a: int, b: int)
    requires Folded(scores, links) && a < b
    ensures (a, b) in links <==> (a, b) in scores || (b, a) in scores
    ensures (b, a) !in links
    ensures (a, b) in scores && (b, a) !in scores ==> links[(a, b)] == scores[(a, b)]
    ensures (a, b) !in scores && (b, a) in scores ==> links[(a, b)] == scores[(b, a)]
    ensures (a, b) in scores && (b, a) in scores ==>
              var there, back, row := scores[(a, b)], scores[(b, a)], links[(a, b)];
              && row.score == there.score + back.score && row.count == there.count + back.count
              && row.maxDelta == if there.maxDelta >= back.maxDelta then there.maxDelta else back.maxDelta
  {
    if (a, b) in links {
      assert links[(a, b)] == BothWays(scores, (a, b));
    }
  }
}
