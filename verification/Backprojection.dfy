/** Backprojection: the residual delay of every flow is shared out over the links of its
    path and accumulated per directed edge; reports merge the two directions. */
module Backprojection {
  import opened Common

  type Edge = (int, int)

  /** The directed edges, and the delay of those for which it is known. */
  datatype Topology = Topology(edges: set<Edge>, delay: map<Edge, real>)

  /** One parsed link line: its ends, and the delay column when the line has one. */
  datatype LinkLine = LinkLine(src: int, dst: int, delay: Option<real>)

  /** What the computation reads of a flow. */
  datatype Flow = Flow(size: int, fct: int, path: seq<int>)

  datatype Row = Row(score: real, count: real, maxDelta: real)

  datatype Stats = Stats(parsed: nat, used: nat, belowMinDelta: nat, missingRoutes: nat, missingPathEdges: nat)

  datatype Settings = Settings(minDelta: real, normalizeSize: bool)

  const ZERO := Row(0.0, 0.0, 0.0)

  // ----- Inputs

  ghost predicate DelayIs(delay: map<Edge, real>, e: Edge, d: Option<real>) {
    d == if e in delay then Some(delay[e]) else None
  }

  predicate Joins(line: LinkLine, e: Edge) {
    e == (line.src, line.dst) || e == (line.dst, line.src)
  }

  /** A line with a delay column sets it in both directions. */
  method AddDelay(line: LinkLine, before: map<Edge, real>) returns (delay: map<Edge, real>)
    ensures delay.Keys <= before.Keys + {(line.src, line.dst), (line.dst, line.src)}
    ensures forall e, d {:trigger DelayIs(before, e, d)} :: DelayIs(before, e, d) ==>
              DelayIs(delay, e, if Joins(line, e) && line.delay.Some? then line.delay else d)
  {
    delay := before;
    if line.delay.Some? {
      delay := delay[(line.src, line.dst) := line.delay.value];
      delay := delay[(line.dst, line.src) := line.delay.value];
    }
  }

  ghost predicate Joined(lines: seq<LinkLine>, e: Edge) {
    exists i :: 0 <= i < |lines| && Joins(lines[i], e)
  }

  /** The delay on the last line between the two nodes that gives one. */
  ghost function LastDelay(lines: seq<LinkLine>, e: Edge): Option<real> {
    if lines == [] then None
    else
      var last := lines[|lines| - 1];
      if Joins(last, e) && last.delay.Some? then last.delay else LastDelay(lines[..|lines| - 1], e)
  }

  lemma DelayNext(lines: seq<LinkLine>, i: nat, was: map<Edge, real>, delay: map<Edge, real>)
    requires i < |lines|
    requires forall e {:trigger LastDelay(lines[..i], e)} :: DelayIs(was, e, LastDelay(lines[..i], e))
    requires forall e, d {:trigger DelayIs(was, e, d)} :: DelayIs(was, e, d) ==>
               DelayIs(delay, e, if Joins(lines[i], e) && lines[i].delay.Some? then lines[i].delay else d)
    ensures forall e {:trigger LastDelay(lines[..i + 1], e)} :: DelayIs(delay, e, LastDelay(lines[..i + 1], e))
  {
    var more := lines[..i + 1];
    assert more[..i] == lines[..i];
    forall e {:trigger LastDelay(more, e)} ensures DelayIs(delay, e, LastDelay(more, e)) {
      assert DelayIs(was, e, LastDelay(lines[..i], e));
    }
  }

  /** Both directions of every link; the delay of the last line that gives one. */
  method BuildTopology(lines: seq<LinkLine>) returns (t: Topology)
    ensures t.delay.Keys <= t.edges
    ensures forall e {:trigger e in t.edges} :: e in t.edges <==> Joined(lines, e)
    ensures forall e {:trigger LastDelay(lines, e)} :: DelayIs(t.delay, e, LastDelay(lines, e))
  {
    var edges: set<Edge>, delay: map<Edge, real> := {}, map[];
    for i := 0 to |lines|
      invariant delay.Keys <= edges
      invariant forall e {:trigger e in edges} :: e in edges <==> Joined(lines[..i], e)
      invariant forall e {:trigger LastDelay(lines[..i], e)} :: DelayIs(delay, e, LastDelay(lines[..i], e))
    {
      var there, back := (lines[i].src, lines[i].dst), (lines[i].dst, lines[i].src);
      ghost var edgesWere := edges;
      edges := edges + {there, back};
      assert forall e {:trigger e in edges} :: e in edges <==> e in edgesWere || Joins(lines[i], e);
      ghost var was := delay;
      delay := AddDelay(lines[i], delay);
      DelayNext(lines, i, was, delay);
    }
    assert lines[..|lines|] == lines;
    return Topology(edges, delay);
  }

  /** Both directions of a link have the same delay. */
  lemma {:induction false} DelaySymmetric(lines: seq<LinkLine>, e: Edge)
    ensures LastDelay(lines, e) == LastDelay(lines, (e.1, e.0))
    ensures Joined(lines, e) <==> Joined(lines, (e.1, e.0))
  {
    if lines == [] {
    } else {
      var init, last := lines[..|lines| - 1], lines[|lines| - 1];
      DelaySymmetric(init, e);
      assert lines == init + [last];
      assert lines[..|lines|] == lines && lines[..|init|] == init;
    }
  }

  /** A path without stutter: no node twice in a row. */
  ghost predicate NoStutter(path: seq<int>) {
    forall i, j :: 0 <= i < |path| && j == i + 1 && j < |path| ==> path[i] != path[j]
  }

  /** `short` is `long` with repeated neighbours merged. */
  ghost predicate Merges(long: seq<int>, short: seq<int>) {
    if long == [] then short == []
    else
      var init, last := long[..|long| - 1], long[|long| - 1];
      if init != [] && init[|init| - 1] == last then Merges(init, short)
      else short != [] && short[|short| - 1] == last && Merges(init, short[..|short| - 1])
  }

  lemma MergesNext(nodes: seq<int>, i: nat, before: seq<int>, path: seq<int>)
    requires i < |nodes| && Merges(nodes[..i], before)
    requires path == if i > 0 && nodes[i - 1] == nodes[i] then before else before + [nodes[i]]
    ensures Merges(nodes[..i + 1], path)
  {
    var long := nodes[..i + 1];
    assert long[..|long| - 1] == nodes[..i];
    if i == 0 || nodes[i - 1] != nodes[i] {
      assert path[..|path| - 1] == before;
    }
  }

  /** What merging does to a path: no stutter is left, both ends stay, and a single node is
      left exactly when all nodes were the same. */
  lemma {:induction false} MergedPath(long: seq<int>, short: seq<int>)
    requires Merges(long, short) && long != []
    ensures short != [] && short[0] == long[0] && short[|short| - 1] == long[|long| - 1]
    ensures NoStutter(short)
    ensures |short| == 1 <==> forall i :: 0 <= i < |long| ==> long[i] == long[0]
  {
    var init, last := long[..|long| - 1], long[|long| - 1];
    if init == [] {
      assert short[..|short| - 1] == [];
    } else if init[|init| - 1] == last {
      MergedPath(init, short);
      assert forall i :: 0 <= i < |init| ==> long[i] == init[i];
    } else {
      var front := short[..|short| - 1];
      MergedPath(init, front);
      assert forall i :: 0 <= i < |front| ==> short[i] == front[i];
      assert |short| > 1 && long[|long| - 2] != last;
    }
  }

  /** Source, routed switches and destination in one path, neighbours merged. */
  method CombinePathNodes(sid: int, switchPath: seq<int>, did: int) returns (path: seq<int>)
    ensures Merges([sid] + switchPath + [did], path)
  {
    var nodes := [sid] + switchPath + [did];
    path := [];
    for i := 0 to |nodes|
      invariant Merges(nodes[..i], path)
      invariant if i == 0 then path == [] else path != [] && path[|path| - 1] == nodes[i - 1]
    {
      ghost var before := path;
      if path == [] || path[|path| - 1] != nodes[i] {
        path := path + [nodes[i]];
      }
      MergesNext(nodes, i, before, path);
    }
    assert nodes[..|nodes|] == nodes;
  }

  function PathEdges(path: seq<int>): (edges: seq<Edge>)
    ensures |edges| == if path == [] then 0 else |path| - 1
    ensures forall i :: 0 <= i < |edges| ==> edges[i] == (path[i], path[i + 1])
  {
    if |path| < 2 then []
    else PathEdges(path[..|path| - 1]) + [(path[|path| - 2], path[|path| - 1])]
  }

  function BaselineDelay(t: Topology, edges: seq<Edge>): real
    requires forall e :: e in edges ==> e in t.delay
  {
    if edges == [] then 0.0 else BaselineDelay(t, edges[..|edges| - 1]) + t.delay[edges[|edges| - 1]]
  }

  // ----- What one flow contributes

  /** A used flow has a residual, the value it projects onto its path, and one edge's share of it. */
  datatype Outcome = MissingRoute | MissingPathEdge | BelowMinDelta | Used(delta: real, value: real, share: real)

  /** What becomes of each flow. */
  type Classifier = Flow -> Outcome

  /** The residual a used flow projects onto its path. */
  function Projected(cfg: Settings, flow: Flow, delta: real): real {
    if cfg.normalizeSize && flow.size > 0 then delta / flow.size as real else delta
  }

  /** One of `n` equal shares of a value. */
  function EqualShare(value: real, n: nat): real
    requires n > 0
  {
    value / n as real
  }

  function Classify(t: Topology, cfg: Settings, flow: Flow): Outcome {
    var edges := PathEdges(flow.path);
    if edges == [] then MissingRoute
    else if exists i :: 0 <= i < |edges| && edges[i] !in t.delay then MissingPathEdge
    else
      var delta := flow.fct as real - BaselineDelay(t, edges);
      if delta < cfg.minDelta then BelowMinDelta
      else Used(delta, Projected(cfg, flow, delta), EqualShare(Projected(cfg, flow, delta), |edges|))
  }

  ghost function By(t: Topology, cfg: Settings): Classifier {
    (flow: Flow) => Classify(t, cfg, flow)
  }

  /** `m` equal shares added up. */
  ghost function Shares(share: real, m: nat): real {
    if m == 0 then 0.0 else Shares(share, m - 1) + share
  }

  /** Every used flow has a path, and its shares add up to its value. */
  ghost predicate Fair(c: Classifier) {
    forall flow {:trigger c(flow)} :: c(flow).Used? ==>
      PathEdges(flow.path) != [] && Shares(c(flow).share, |PathEdges(flow.path)|) == c(flow).value
  }

  lemma {:induction false} SharesMultiply(share: real, m: nat)
    ensures Shares(share, m) == share * m as real
  {
    if m == 0 {
    } else {
      SharesMultiply(share, m - 1);
      assert share * m as real == share * (m - 1) as real + share;
    }
  }

  /** Equal shares of a value add up to the value. */
  lemma SharesAddUp(x: real, n: nat)
    requires n > 0
    ensures Shares(EqualShare(x, n), n) == x
  {
    SharesMultiply(EqualShare(x, n), n);
    assert EqualShare(x, n) * n as real == x;
  }

  lemma ClassifyIsFair(t: Topology, cfg: Settings)
    ensures Fair(By(t, cfg))
  {
    var c := By(t, cfg);
    forall flow {:trigger c(flow)} | c(flow).Used?
      ensures PathEdges(flow.path) != [] && Shares(c(flow).share, |PathEdges(flow.path)|) == c(flow).value
    {
      SharesAddUp(c(flow).value, |PathEdges(flow.path)|);
    }
  }

  ghost function Occurrences(edges: seq<Edge>, e: Edge): nat {
    if edges == [] then 0 else Occurrences(edges[..|edges| - 1], e) + if edges[|edges| - 1] == e then 1 else 0
  }

  function Merge(a: Row, b: Row): Row { Row(a.score + b.score, a.count + b.count, MaxReal(a.maxDelta, b.maxDelta)) }

  /** What one flow adds to edge `e`: its share and one observation per crossing, and its
      residual as a candidate for the largest. */
  ghost function Contribution(c: Classifier, flow: Flow, e: Edge): Row {
    match c(flow)
    case Used(delta, _, share) =>
      var m := Occurrences(PathEdges(flow.path), e);
      if m == 0 then ZERO else Row(Shares(share, m), m as real, delta)
    case _ => ZERO
  }

  ghost function MergeAll(f: Flow -> Row, flows: seq<Flow>): (r: Row)
    ensures r.maxDelta >= 0.0
  {
    if flows == [] then ZERO else Merge(MergeAll(f, flows[..|flows| - 1]), f(flows[|flows| - 1]))
  }

  /** The row of edge `e` after all the flows. */
  ghost function RowOf(c: Classifier, flows: seq<Flow>, e: Edge): Row {
    MergeAll((flow: Flow) => Contribution(c, flow, e), flows)
  }

  /** The edges a used flow crosses. */
  ghost function Crossed(c: Classifier, flow: Flow): set<Edge> {
    if c(flow).Used? then ToSet(PathEdges(flow.path)) else {}
  }

  ghost function AllCrossed(c: Classifier, flows: seq<Flow>): set<Edge> {
    if flows == [] then {} else AllCrossed(c, flows[..|flows| - 1]) + Crossed(c, flows[|flows| - 1])
  }

  ghost function CountIn(s: Stats, o: Outcome): Stats {
    match o
    case MissingRoute => s.(missingRoutes := s.missingRoutes + 1)
    case MissingPathEdge => s.(missingPathEdges := s.missingPathEdges + 1)
    case BelowMinDelta => s.(belowMinDelta := s.belowMinDelta + 1)
    case Used(_, _, _) => s.(used := s.used + 1)
  }

  /** One more flow has been parsed and classified. */
  ghost function ParsedAs(s: Stats, o: Outcome): Stats {
    CountIn(s.(parsed := s.parsed + 1), o)
  }

  ghost function StatsOf(c: Classifier, flows: seq<Flow>): Stats {
    if flows == [] then Stats(0, 0, 0, 0, 0)
    else ParsedAs(StatsOf(c, flows[..|flows| - 1]), c(flows[|flows| - 1]))
  }

  // ----- Totals over a table

  /** Sums of scores and counts. */
  datatype Totals = Totals(score: real, count: real)

  function Plus(x: Totals, r: Row): Totals { Totals(x.score + r.score, x.count + r.count) }

  ghost function TotalOf(m: map<Edge, Row>): Totals
    decreases m.Keys
  {
    if m == map[] then Totals(0.0, 0.0)
    else
      var e :| e in m;
      Plus(TotalOf(m - {e}), m[e])
  }

  /** The order of summing does not matter. */
  lemma {:induction false} TotalWithout(m: map<Edge, Row>, e: Edge)
    requires e in m
    ensures TotalOf(m) == Plus(TotalOf(m - {e}), m[e])
    decreases m.Keys
  {
    var f :| f in m && TotalOf(m) == Plus(TotalOf(m - {f}), m[f]);
    if f != e {
      var less, other := m - {f}, m - {e};
      TotalWithout(less, e);
      TotalWithout(other, f);
      assert less - {e} == other - {f};
      assert less[e] == m[e] && other[f] == m[f];
      assert TotalOf(less) == Plus(TotalOf(less - {e}), m[e]);
      assert TotalOf(other) == Plus(TotalOf(less - {e}), m[f]);
      assert Plus(TotalOf(other), m[e]) == Plus(TotalOf(less), m[f]);
    }
  }

  lemma {:induction false} TotalUpdate(m: map<Edge, Row>, e: Edge, r: Row)
    ensures var was := if e in m then m[e] else ZERO;
            && TotalOf(m[e := r]).score == TotalOf(m).score - was.score + r.score
            && TotalOf(m[e := r]).count == TotalOf(m).count - was.count + r.count
  {
    var n := m[e := r];
    TotalWithout(n, e);
    assert n - {e} == m - {e};
    if e in m {
      TotalWithout(m, e);
    } else {
      assert m - {e} == m;
    }
  }

  // ----- The computation

  /** What all used flows together put into the table: their values, and their crossings. */
  ghost function Poured(c: Classifier, flows: seq<Flow>): Totals {
    if flows == [] then Totals(0.0, 0.0)
    else
      var before, flow := Poured(c, flows[..|flows| - 1]), flows[|flows| - 1];
      match c(flow)
      case Used(_, value, _) => Totals(before.score + value, before.count + |PathEdges(flow.path)| as real)
      case _ => before
  }

  /** Every edge of the table holds its row, and nothing else is in the table. */
  ghost predicate TableOf(known: set<Edge>, c: Classifier, flows: seq<Flow>, scores: map<Edge, Row>) {
    && scores.Keys == known + AllCrossed(c, flows)
    && forall e {:trigger RowOf(c, flows, e)} :: e in scores ==> scores[e] == RowOf(c, flows, e)
  }

  ghost function Shared(row: Row, share: real, delta: real, m: nat): Row {
    if m == 0 then row else Row(row.score + Shares(share, m), row.count + m as real, MaxReal(row.maxDelta, delta))
  }

  /** The table after crossing some edges, `before` being the table before. */
  ghost predicate SharedOut(before: map<Edge, Row>, edges: seq<Edge>, share: real, delta: real,
      scores: map<Edge, Row>)
  {
    && scores.Keys == before.Keys + ToSet(edges)
    && forall e {:trigger Occurrences(edges, e)} :: e in scores ==>
         scores[e] == Shared(if e in before then before[e] else ZERO, share, delta, Occurrences(edges, e))
  }

  /** One more crossing of `e`. */
  function Bumped(scores: map<Edge, Row>, e: Edge, share: real, delta: real): map<Edge, Row> {
    var row := if e in scores then scores[e] else ZERO;
    scores[e := Row(row.score + share, row.count + 1.0, MaxReal(row.maxDelta, delta))]
  }

  lemma TotalBumped(scores: map<Edge, Row>, e: Edge, share: real, delta: real)
    ensures TotalOf(Bumped(scores, e, share, delta)).score == TotalOf(scores).score + share
    ensures TotalOf(Bumped(scores, e, share, delta)).count == TotalOf(scores).count + 1.0
  {
    var row := if e in scores then scores[e] else ZERO;
    TotalUpdate(scores, e, Row(row.score + share, row.count + 1.0, MaxReal(row.maxDelta, delta)));
  }

  lemma {:induction false} NotYetCrossed(edges: seq<Edge>, e: Edge)
    ensures Occurrences(edges, e) == 0 <==> e !in edges
  {
    if edges == [] {
    } else {
      NotYetCrossed(edges[..|edges| - 1], e);
      assert edges == edges[..|edges| - 1] + [edges[|edges| - 1]];
    }
  }

  lemma {:induction false} ShareNext(before: map<Edge, Row>, edges: seq<Edge>, share: real, delta: real,
      scores: map<Edge, Row>, e: Edge)
    requires SharedOut(before, edges, share, delta, scores)
    ensures SharedOut(before, edges + [e], share, delta, Bumped(scores, e, share, delta))
  {
    var more := edges + [e];
    assert more[..|more| - 1] == edges;
    assert ToSet(more) == ToSet(edges) + {e};
    var after := Bumped(scores, e, share, delta);
    forall f {:trigger Occurrences(more, f)} | f in after
      ensures after[f] == Shared(if f in before then before[f] else ZERO, share, delta, Occurrences(more, f))
    {
      assert Occurrences(more, f) == Occurrences(edges, f) + if f == e then 1 else 0;
      NotYetCrossed(edges, f);
      assert Shares(share, Occurrences(edges, f) + 1) == Shares(share, Occurrences(edges, f)) + share;
      assert Shares(share, 0) == 0.0;
    }
  }

  /** What `m` crossings put into the table as a whole. */
  ghost predicate GrownBy(before: Totals, share: real, m: nat, after: Totals) {
    after.score == before.score + Shares(share, m) && after.count == before.count + m as real
  }

  lemma ShareStep(before: map<Edge, Row>, edges: seq<Edge>, i: nat, share: real, delta: real, scores: map<Edge, Row>)
    requires i < |edges| && SharedOut(before, edges[..i], share, delta, scores)
    requires GrownBy(TotalOf(before), share, i, TotalOf(scores))
    ensures SharedOut(before, edges[..i + 1], share, delta, Bumped(scores, edges[i], share, delta))
    ensures GrownBy(TotalOf(before), share, i + 1, TotalOf(Bumped(scores, edges[i], share, delta)))
  {
    assert edges[..i + 1] == edges[..i] + [edges[i]];
    ShareNext(before, edges[..i], share, delta, scores, edges[i]);
    TotalBumped(scores, edges[i], share, delta);
  }

  /** An edge missing from the table is put in first. */
  method CrossEdge(e: Edge, share: real, delta: real, before: map<Edge, Row>) returns (scores: map<Edge, Row>)
    ensures scores == Bumped(before, e, share, delta)
  {
    scores := before;
    if e !in scores {
      scores := scores[e := ZERO];
    }
    var row := scores[e];
    scores := scores[e := Row(row.score + share, row.count + 1.0, MaxReal(row.maxDelta, delta))];
  }

  /** Add one flow's share to each edge of its path, as often as the path crosses it. */
  method ShareOut(edges: seq<Edge>, share: real, delta: real, before: map<Edge, Row>) returns (scores: map<Edge, Row>)
    ensures SharedOut(before, edges, share, delta, scores)
    ensures GrownBy(TotalOf(before), share, |edges|, TotalOf(scores))
  {
    scores := before;
    for i := 0 to |edges|
      invariant SharedOut(before, edges[..i], share, delta, scores)
      invariant GrownBy(TotalOf(before), share, i, TotalOf(scores))
    {
      ShareStep(before, edges, i, share, delta, scores);
      scores := CrossEdge(edges[i], share, delta, scores);
    }
    assert edges[..|edges|] == edges;
  }

  /** What one flow does to the table. */
  ghost predicate FlowApplied(o: Outcome, edges: seq<Edge>, before: map<Edge, Row>, scores: map<Edge, Row>) {
    match o
    case Used(delta, _, share) =>
      SharedOut(before, edges, share, delta, scores) && GrownBy(TotalOf(before), share, |edges|, TotalOf(scores))
    case _ => scores == before
  }

  /** The value a flow projects, and one edge's share of it. */
  method ShareOf(ghost t: Topology, cfg: Settings, flow: Flow, edges: seq<Edge>, delta: real)
      returns (value: real, share: real)
    requires edges == PathEdges(flow.path) && edges != []
    requires Classify(t, cfg, flow).Used? && Classify(t, cfg, flow).delta == delta
    ensures Classify(t, cfg, flow) == Used(delta, value, share)
  {
    value := Projected(cfg, flow, delta);
    share := EqualShare(value, |edges|);
  }

  /** The body of the flow loop. */
  method ProcessFlow(t: Topology, cfg: Settings, flow: Flow, before: map<Edge, Row>, statsBefore: Stats)
      returns (scores: map<Edge, Row>, stats: Stats)
    ensures FlowApplied(Classify(t, cfg, flow), PathEdges(flow.path), before, scores)
    ensures stats == CountIn(statsBefore, Classify(t, cfg, flow))
  {
    scores, stats := before, statsBefore;
    var edges := PathEdges(flow.path);
    if edges == [] {
      stats := stats.(missingRoutes := stats.missingRoutes + 1);
      return;
    }
    if exists j :: 0 <= j < |edges| && edges[j] !in t.delay {
      stats := stats.(missingPathEdges := stats.missingPathEdges + 1);
      return;
    }
    var delta := flow.fct as real - BaselineDelay(t, edges);
    if delta < cfg.minDelta {
      stats := stats.(belowMinDelta := stats.belowMinDelta + 1);
      return;
    }
    var value, share := ShareOf(t, cfg, flow, edges, delta);
    scores := ShareOut(edges, share, delta, scores);
    stats := stats.(used := stats.used + 1);
  }

  lemma {:induction false} SameTable(known: set<Edge>, c: Classifier, flows: seq<Flow>, flow: Flow,
      scores: map<Edge, Row>)
    requires TableOf(known, c, flows, scores) && !c(flow).Used?
    ensures TableOf(known, c, flows + [flow], scores)
  {
    var more := flows + [flow];
    assert more[..|more| - 1] == flows;
    forall e {:trigger RowOf(c, more, e)} | e in scores ensures scores[e] == RowOf(c, more, e) {
      assert scores[e] == RowOf(c, flows, e);
    }
  }

  lemma NothingContributed(c: Classifier, flow: Flow, e: Edge)
    requires e !in Crossed(c, flow)
    ensures Contribution(c, flow, e) == ZERO
  {
    NotYetCrossed(PathEdges(flow.path), e);
  }

  /** An edge no used flow has crossed has an empty row. */
  lemma {:induction false} UncrossedIsZero(c: Classifier, flows: seq<Flow>, e: Edge)
    requires e !in AllCrossed(c, flows)
    ensures RowOf(c, flows, e) == ZERO
  {
    if flows == [] {
    } else {
      var init, last := flows[..|flows| - 1], flows[|flows| - 1];
      UncrossedIsZero(c, init, e);
      NothingContributed(c, last, e);
      assert flows == init + [last];
    }
  }

  lemma SharedIsMerged(c: Classifier, flow: Flow, e: Edge, row: Row)
    requires c(flow).Used? && row.maxDelta >= 0.0
    ensures Shared(row, c(flow).share, c(flow).delta, Occurrences(PathEdges(flow.path), e)) ==
        Merge(row, Contribution(c, flow, e))
  {
  }

  /** Sharing out a used flow brings every row up to date. */
  lemma {:induction false} NextTable(known: set<Edge>, c: Classifier, flows: seq<Flow>, flow: Flow,
                                     before: map<Edge, Row>, scores: map<Edge, Row>)
    requires TableOf(known, c, flows, before) && c(flow).Used?
    requires SharedOut(before, PathEdges(flow.path), c(flow).share, c(flow).delta, scores)
    ensures TableOf(known, c, flows + [flow], scores)
  {
    var more := flows + [flow];
    assert more[..|more| - 1] == flows;
    var edges := PathEdges(flow.path);
    assert ToSet(edges) == Crossed(c, flow);
    forall e {:trigger RowOf(c, more, e)} | e in scores ensures scores[e] == RowOf(c, more, e) {
      var was := if e in before then before[e] else ZERO;
      if e in before {
        assert before[e] == RowOf(c, flows, e);
      } else {
        UncrossedIsZero(c, flows, e);
      }
      assert was == RowOf(c, flows, e);
      SharedIsMerged(c, flow, e, was);
      assert scores[e] == Shared(was, c(flow).share, c(flow).delta, Occurrences(edges, e));
    }
  }

  /** Table and total stay those of the flows so far. */
  lemma {:induction false} FlowNext(known: set<Edge>, c: Classifier, flows: seq<Flow>, flow: Flow,
                                    before: map<Edge, Row>, scores: map<Edge, Row>)
    requires Fair(c) && TableOf(known, c, flows, before) && TotalOf(before) == Poured(c, flows)
    requires FlowApplied(c(flow), PathEdges(flow.path), before, scores)
    ensures TableOf(known, c, flows + [flow], scores) && TotalOf(scores) == Poured(c, flows + [flow])
  {
    assert (flows + [flow])[..|flows|] == flows;
    if c(flow).Used? {
      NextTable(known, c, flows, flow, before, scores);
    } else {
      SameTable(known, c, flows, flow, scores);
    }
  }

  lemma {:induction false} ParsedCount(c: Classifier, flows: seq<Flow>)
    ensures var s := StatsOf(c, flows);
            s.parsed == |flows| == s.used + s.belowMinDelta + s.missingRoutes + s.missingPathEdges
  {
    if flows == [] {
    } else {
      ParsedCount(c, flows[..|flows| - 1]);
    }
  }

  lemma {:induction false} ZeroTotal(scores: map<Edge, Row>)
    requires forall e :: e in scores ==> scores[e] == ZERO
    ensures TotalOf(scores) == Totals(0.0, 0.0)
    decreases scores.Keys
  {
    if scores == map[] {
    } else {
      var e :| e in scores;
      TotalWithout(scores, e);
      ZeroTotal(scores - {e});
    }
  }

  lemma EmptyTable(known: set<Edge>, c: Classifier, scores: map<Edge, Row>)
    requires scores.Keys == known && forall e :: e in scores ==> scores[e] == ZERO
    ensures TableOf(known, c, [], scores) && TotalOf(scores) == Totals(0.0, 0.0)
  {
    ZeroTotal(scores);
  }

  /** Table, total and counters are those of the flows, except that `parsed` is set from the start. */
  ghost predicate Processed(known: set<Edge>, c: Classifier, flows: seq<Flow>, parsed: nat, scores: map<Edge, Row>,
      stats: Stats)
  {
    && TableOf(known, c, flows, scores) && TotalOf(scores) == Poured(c, flows)
    && stats == StatsOf(c, flows).(parsed := parsed)
  }

  lemma {:induction false} ProcessedNext(known: set<Edge>, c: Classifier, flows: seq<Flow>, i: nat, parsed: nat,
      before: map<Edge, Row>, statsBefore: Stats, scores: map<Edge, Row>)
    requires i < |flows| && Fair(c) && Processed(known, c, flows[..i], parsed, before, statsBefore)
    requires FlowApplied(c(flows[i]), PathEdges(flows[i].path), before, scores)
    ensures Processed(known, c, flows[..i + 1], parsed, scores, CountIn(statsBefore, c(flows[i])))
  {
    var done := flows[..i + 1];
    assert done == flows[..i] + [flows[i]] && done[..i] == flows[..i];
    FlowNext(known, c, flows[..i], flows[i], before, scores);
  }

  lemma MaximaNotNegative(known: set<Edge>, c: Classifier, flows: seq<Flow>, scores: map<Edge, Row>)
    requires TableOf(known, c, flows, scores)
    ensures forall e :: e in scores ==> scores[e].maxDelta >= 0.0
  {
    forall e | e in scores ensures scores[e].maxDelta >= 0.0 {
      assert scores[e] == RowOf(c, flows, e);
    }
  }

  method ComputeBackprojection(t: Topology, flows: seq<Flow>, cfg: Settings)
      returns (scores: map<Edge, Row>, stats: Stats)
    ensures TableOf(t.edges, By(t, cfg), flows, scores) && stats == StatsOf(By(t, cfg), flows)
    ensures TotalOf(scores) == Poured(By(t, cfg), flows)
    ensures forall e :: e in scores ==> scores[e].maxDelta >= 0.0
  {
    ghost var c := By(t, cfg);
    ClassifyIsFair(t, cfg);
    scores := map e | e in t.edges :: ZERO;
    stats := Stats(|flows|, 0, 0, 0, 0);
    EmptyTable(t.edges, c, scores);
    for i := 0 to |flows|
      invariant Processed(t.edges, c, flows[..i], |flows|, scores, stats)
    {
      ghost var before, statsBefore := scores, stats;
      scores, stats := ProcessFlow(t, cfg, flows[i], scores, stats);
      ProcessedNext(t.edges, c, flows, i, |flows|, before, statsBefore, scores);
    }
    assert flows[..|flows|] == flows;
    ParsedCount(c, flows);
    MaximaNotNegative(t.edges, c, flows, scores);
  }

  // ----- Consequences

  /** On a topology whose delays are all on known edges, no edge is ever added late. */
  lemma {:induction false} NoLateEdges(t: Topology, cfg: Settings, flows: seq<Flow>)
    requires t.delay.Keys <= t.edges
    ensures AllCrossed(By(t, cfg), flows) <= t.edges
  {
    if flows == [] {
    } else {
      NoLateEdges(t, cfg, flows[..|flows| - 1]);
    }
  }

  /** Any flow of the list might as well have come last. */
  lemma {:induction false} MoveToEnd(f: Flow -> Row, flows: seq<Flow>, k: nat)
    requires k < |flows|
    ensures MergeAll(f, flows) == Merge(MergeAll(f, flows[..k] + flows[k + 1..]), f(flows[k]))
  {
    var rest := flows[..k] + flows[k + 1..];
    var init, last := flows[..|flows| - 1], flows[|flows| - 1];
    if k == |init| {
      assert rest == init;
    } else {
      MoveToEnd(f, init, k);
      assert rest[..|rest| - 1] == init[..k] + init[k + 1..];
      assert rest[|rest| - 1] == last;
    }
  }

  lemma WithoutOne(b: seq<Flow>, k: nat)
    requires k < |b|
    ensures multiset(b[..k] + b[k + 1..]) == multiset(b) - multiset{b[k]}
  {
    assert b == b[..k] + [b[k]] + b[k + 1..];
  }

  lemma {:induction false} MergeAnyOrder(f: Flow -> Row, a: seq<Flow>, b: seq<Flow>)
    requires multiset(a) == multiset(b)
    ensures MergeAll(f, a) == MergeAll(f, b)
    decreases |a|
  {
    if a == [] {
      assert |multiset(b)| == 0;
    } else {
      var init, last := a[..|a| - 1], a[|a| - 1];
      assert a == init + [last] && last in multiset(b);
      var k :| 0 <= k < |b| && b[k] == last;
      WithoutOne(b, k);
      MergeAnyOrder(f, init, b[..k] + b[k + 1..]);
      MoveToEnd(f, b, k);
    }
  }

  /** The rows do not depend on the order of the flows. */
  lemma OrderIrrelevant(c: Classifier, a: seq<Flow>, b: seq<Flow>, e: Edge)
    requires multiset(a) == multiset(b)
    ensures RowOf(c, a, e) == RowOf(c, b, e)
  {
    MergeAnyOrder((flow: Flow) => Contribution(c, flow, e), a, b);
  }

  lemma {:induction false} CrossedBySome(c: Classifier, flows: seq<Flow>, e: Edge)
    ensures e in AllCrossed(c, flows) <==> exists flow :: flow in flows && e in Crossed(c, flow)
  {
    if flows == [] {
    } else {
      var init, last := flows[..|flows| - 1], flows[|flows| - 1];
      CrossedBySome(c, init, e);
      assert flows == init + [last];
    }
  }

  /** So two computations over the same flows in different order produce the same table. */
  lemma {:induction false} SameFlowsSameTable(known: set<Edge>, c: Classifier, a: seq<Flow>, b: seq<Flow>,
                                              tableA: map<Edge, Row>, tableB: map<Edge, Row>)
    requires multiset(a) == multiset(b) && TableOf(known, c, a, tableA) && TableOf(known, c, b, tableB)
    ensures tableA == tableB
  {
    assert forall flow :: flow in a <==> flow in multiset(a);
    assert forall flow :: flow in b <==> flow in multiset(b);
    forall e ensures e in tableA <==> e in tableB {
      CrossedBySome(c, a, e);
      CrossedBySome(c, b, e);
    }
    forall e | e in tableA ensures tableA[e] == tableB[e] {
      OrderIrrelevant(c, a, b, e);
    }
  }

  lemma StatsAppend(c: Classifier, flows: seq<Flow>, flow: Flow)
    ensures StatsOf(c, flows + [flow]) == ParsedAs(StatsOf(c, flows), c(flow))
  {
    var more := flows + [flow];
    assert more[..|more| - 1] == flows && more[|more| - 1] == flow;
  }

  lemma ParsedInAnyOrder(s: Stats, o: Outcome, p: Outcome)
    ensures ParsedAs(ParsedAs(s, o), p) == ParsedAs(ParsedAs(s, p), o)
  {
  }

  /** Any flow of the list might as well have been counted last. */
  lemma {:induction false} CountedLast(c: Classifier, flows: seq<Flow>, k: nat)
    requires k < |flows|
    ensures StatsOf(c, flows) == StatsOf(c, (flows[..k] + flows[k + 1..]) + [flows[k]])
  {
    var init, last := flows[..|flows| - 1], flows[|flows| - 1];
    var rest := flows[..k] + flows[k + 1..];
    if k == |init| {
      assert rest + [flows[k]] == flows;
    } else {
      var inner := init[..k] + init[k + 1..];
      CountedLast(c, init, k);
      assert rest == inner + [last];
      StatsAppend(c, inner, flows[k]);
      StatsAppend(c, inner, last);
      StatsAppend(c, rest, flows[k]);
      ParsedInAnyOrder(StatsOf(c, inner), c(last), c(flows[k]));
    }
  }

  /** The counters do not depend on the order of the flows either. */
  lemma {:induction false} SameFlowsSameStats(c: Classifier, a: seq<Flow>, b: seq<Flow>)
    requires multiset(a) == multiset(b)
    ensures StatsOf(c, a) == StatsOf(c, b)
    decreases |a|, 0
  {
    if a == [] {
      assert |multiset(b)| == 0;
    } else {
      var init, last := a[..|a| - 1], a[|a| - 1];
      assert a == init + [last] && last in multiset(b);
      var k :| 0 <= k < |b| && b[k] == last;
      SameFlowsWithout(c, init, b, k);
      StatsAppend(c, init, last);
    }
  }

  lemma {:induction false} SameFlowsWithout(c: Classifier, init: seq<Flow>, b: seq<Flow>, k: nat)
    requires k < |b| && multiset(init) == multiset(b) - multiset{b[k]} && b[k] in multiset(b)
    ensures StatsOf(c, b) == ParsedAs(StatsOf(c, init), c(b[k]))
    decreases |init|, 1
  {
    var rest := b[..k] + b[k + 1..];
    WithoutOne(b, k);
    SameFlowsSameStats(c, init, rest);
    CountedLast(c, b, k);
    StatsAppend(c, rest, b[k]);
  }

  // ----- The report

  function Undirected(e: Edge): Edge { if e.0 <= e.1 then e else (e.1, e.0) }

  /** The rows of both directions of an undirected link together, or of the one there is. */
  ghost function BothWays(scores: map<Edge, Row>, u: Edge): Row
    requires u in scores || (u.1, u.0) in scores
  {
    var back := (u.1, u.0);
    if u !in scores then scores[back]
    else if back !in scores || back == u then scores[u]
    else Merge(scores[u], scores[back])
  }

  /** The merged table of the directed rows seen so far. */
  ghost predicate Folded(seen: map<Edge, Row>, links: map<Edge, Row>) {
    && (forall u :: u in links <==> u.0 <= u.1 && (u in seen || (u.1, u.0) in seen))
    && (forall u {:trigger BothWays(seen, u)} :: u in links ==> links[u] == BothWays(seen, u))
  }

  lemma {:induction false} FoldSame(seen: map<Edge, Row>, links: map<Edge, Row>, e: Edge, row: Row)
    requires Folded(seen, links) && e !in seen && row.maxDelta >= 0.0
    ensures var u := Undirected(e);
            BothWays(seen[e := row], u) == Merge(if u in links then links[u] else ZERO, row)
  {
    var u := Undirected(e);
    assert Merge(ZERO, row) == row;
    if u in links {
      assert links[u] == BothWays(seen, u);
      assert Merge(links[u], row) == Merge(row, links[u]);
    }
  }

  lemma {:induction false} FoldNext(seen: map<Edge, Row>, links: map<Edge, Row>, e: Edge, row: Row)
    requires Folded(seen, links) && e !in seen && row.maxDelta >= 0.0
    ensures var u := Undirected(e);
            Folded(seen[e := row], links[u := Merge(if u in links then links[u] else ZERO, row)])
  {
    var u := Undirected(e);
    var after := links[u := Merge(if u in links then links[u] else ZERO, row)];
    var now := seen[e := row];
    assert e == u || e == (u.1, u.0);
    FoldSame(seen, links, e, row);
    forall v {:trigger BothWays(now, v)} | v in after ensures after[v] == BothWays(now, v) {
      if v != u {
        assert links[v] == BothWays(seen, v);
      }
    }
  }

  lemma {:induction false} FoldKeepsTotal(seen: map<Edge, Row>, links: map<Edge, Row>, e: Edge, row: Row)
    requires e !in seen && TotalOf(links) == TotalOf(seen)
    ensures var u := Undirected(e);
            TotalOf(links[u := Merge(if u in links then links[u] else ZERO, row)]) == TotalOf(seen[e := row])
  {
    var u := Undirected(e);
    TotalUpdate(links, u, Merge(if u in links then links[u] else ZERO, row));
    TotalUpdate(seen, e, row);
  }

  /** Merge the rows of both directions of every link. */
  method FoldUndirected(scores: map<Edge, Row>) returns (links: map<Edge, Row>)
    requires forall e :: e in scores ==> scores[e].maxDelta >= 0.0
    ensures Folded(scores, links) && TotalOf(links) == TotalOf(scores)
  {
    links := map[];
    var rest := scores.Keys;
    ghost var seen: map<Edge, Row> := map[];
    while rest != {}
      invariant rest <= scores.Keys && seen.Keys == scores.Keys - rest && forall e :: e in seen ==> seen[e] == scores[e]
      invariant Folded(seen, links) && TotalOf(links) == TotalOf(seen)
      decreases rest
    {
      var e :| e in rest;
      var u := Undirected(e);
      FoldNext(seen, links, e, scores[e]);
      FoldKeepsTotal(seen, links, e, scores[e]);
      var row := Merge(if u in links then links[u] else ZERO, scores[e]);
      links := links[u := row];
      seen := seen[e := scores[e]];
      rest := rest - {e};
    }
    assert seen == scores;
  }
}
