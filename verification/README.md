# Verified models of the straggler diagnosis tools and their simulator support

This project models the parts of the repository whose correctness rests on an argument
rather than on a formula, in the form the source has (loops over sequences and maps,
classes whose methods update their fields), and proves what each of them is for.

- **Step detection** (`Division`, `Words`, `StepDetector`, `StepTheorems`, `StepRecovery`,
  `StepReports`): the
  incremental prefix function over a stream of collective-communication events, the
  DETECT/MATCH machine that cuts the stream into steps, and the exact condition under which
  it recovers a repeated block.
- **Dependency graphs** (`Digraph`, `Topsort`, `TopsortLevels`, `Rotations`, `CycleFinder`):
  Kahn's sort, the level-by-level variant, and the enumeration of simple cycles.
- **Equal-cost routing** (`Links`, `RouteSearch`, `Routing`, `Loading`, `Clos`): the search from each
  host, the installed next hops, the rerouting after a link failure, and what this computes
  on every topology the Clos generator can emit.
- **Worker pool** (`WorkerPool`, `PoolHistory`): threads, queues, sentinels and an asynchronous
  interrupt as one transition system, so that a run is any interleaving, and what happened to
  each job in it.
- **Change points and diagnosis** (`Changepoints`, `ChangeReports`, `Jumps`, `Diagnose`): two-sided cumulative sums
  with confirmation and restart, the mapping from steps to raw lines, and the sliding-window
  test for a lagging node.
- **Backprojection** (`Backprojection`, `FlowTables`): residual flow delay shared out over links.
- **Request queue** (`RequestQueue`, `QueueCalls`): the bounded, expiring, duplicate-free buffer of the
  AODV model.

`Common` holds what several modules share. `dafny verify dfyconfig.toml` checks everything.

## Where code and documentation differ

- The comment at `CollScope-NS3/bindings/python/topsort.py:109` says that every element left
  over has a child. `Topsort.LeftOverWithoutChild` is a counterexample, and
  `Topsort.LeftOverHaveChildren` says exactly when the comment is right: when every element on
  or below a cycle is the parent in some pair. What always holds, and what the cycle argument
  needs, is that every element left over has a left-over *parent* (`Topsort.Topsort`,
  `Topsort.StuckHoldsCycle`).
- The default values in the argument descriptions of `detect_changepoints`
  (`straggler-algorithms/changepoint_detector.py:72-75`) are not those of its signature. The
  model takes all of them as parameters.
- Exact recovery of a repeated block needs a long enough warm-up;
  `StepRecovery.StepsRecovered` gives the exact condition and
  `StepRecovery.ShortWarmupMisleads` a trace that shows it is needed.
- `detect_steps` accepts any warm-up limit, but with 0 it ends only if every round detects a
  run (`StepDetector.MachineEnds`); on the shortest traces it never does
  (`StepDetector.ShortTraceStalls`).
- The request queue's length bound and expiry order hold for fixed settings. The setters can
  break them: `RequestQueue.StepKeepsBound` and `RequestQueue.OverfullGrows` say exactly when
  the bound breaks, `RequestQueue.StepKeepsTidy` when order and timeout do, and
  `RequestQueue.StepKeepsOrder` when the order alone does; `RequestQueue.RunWithinSettings`
  and `RequestQueue.RunKeepsOrder` say it of whole runs. `RequestQueue.LoweredTimeoutExample`
  and `RequestQueue.LoweredBoundExample` are inputs on which order and bound break.

## Modelling choices

- Python's integers are unbounded. In the routing search delays and times are added modulo
  2^64, as in C++; rates are positive. The request queue's times are unbounded integers.
- Floats are exact reals. The square root is an arbitrary function on reals: no theorem needs
  more of it.
- A loop over a dictionary, a set or a `std::map` takes the keys in an arbitrary order.
- Loop bodies that are long in the source are methods of their own here, with the loop's
  invariant as their contract.
- `is_rotated` on two empty sequences, a zero or indivisible group size in the Clos script and
  the early error exits are results of the models, not preconditions.
- Preconditions that are the source's own: limits with which the step machine gets through the
  trace (`StepDetector.Completes`: a positive warm-up limit, as the default is, or no round
  without a detected run), positive link rates (the search divides by them), no
  earlier next hops for the host being routed, a window of at least one line, and for the
  request queue a bound of at least 1 or a queue that is not empty after purging (dropping the
  front of an empty vector is undefined).
- The request queue's error callbacks are a log of reported entries and do not call back into
  the queue; the clock passed to its calls never goes back.
- An interface number is the number of the device added for the link; number 0 is the loopback
  device (`CollScope-NS3/src/network/model/node.cc:108-119`). Arrival by interface number needs
  the numbers of one node's links to be distinct: reading the links makes them so, and taking
  links down keeps them so.
- The worker pool assumes that running one job returns.

## Model

| member | source | states |
|---|---|---|
| `StepDetector.NextBorder` | straggler-algorithms/step_detector.py:51-56 | one step of the prefix function: after falling back along shorter borders, the value appended for a position is the length of the longest proper border of the prefix that ends there |
| `Words.FallBack` | straggler-algorithms/step_detector.py:52-53 | replacing a border by its own longest border skips no border that the new event could extend |
| `Words.NextLongestBorder` | straggler-algorithms/step_detector.py:51-56 | once falling back stops, extending the border (or giving up at 0) yields the longest border of the longer prefix |
| `Words.LongestBorderGivesMinimalPeriod` | straggler-algorithms/step_detector.py:62 | prefix length minus longest border is the minimal period of the prefix |
| `StepDetector.DetectPattern` | straggler-algorithms/step_detector.py:39-69 | the scan reports a pattern exactly when some prefix longer than the warm-up consists of at least two copies of its minimal period of two or more events; the pattern is one period of the shortest such prefix |
| `StepDetector.TryStop` | straggler-algorithms/step_detector.py:58-67 | the test at one prefix length: it stops exactly at the first qualifying length and otherwise leaves the search pending from the next length on |
| `StepDetector.FirstStopIsFirst` | straggler-algorithms/step_detector.py:46-69 | no shorter prefix qualifies, and a scan without result has seen no qualifying prefix |
| `StepDetector.DetectedPattern` | straggler-algorithms/step_detector.py:62-67 | every detected pattern is primitive, has two different symbols and is followed by a second copy of itself |
| `StepDetector.PatternHasTwoSymbols` | straggler-algorithms/step_detector.py:65-66 | the guard that skips patterns with fewer than two distinct symbols never fires |
| `Words.FineWilf` | straggler-algorithms/step_detector.py:62-63 | two periods that together fit in a word imply their greatest common divisor as a period, which is why no wrong shorter period can be picked |
| `Words.MinimalPeriodIsPrimitive` | straggler-algorithms/step_detector.py:62-64 | the block of the minimal period is never itself a repetition of a shorter block |
| `Words.PrimitiveBlockIsMinimalPeriod` | straggler-algorithms/step_detector.py:62-64 | two copies of a primitive block have that block length as their minimal period |
| `StepDetector.RunCoversDetection` | straggler-algorithms/step_detector.py:98-132 | matching from the alignment index covers at least two whole patterns, so the branch for zero matched steps is never reached |
| `StepDetector.MatchPhase` | straggler-algorithms/step_detector.py:98-132 | matching emits exactly the whole periods of the maximal run of the pattern, with the trace's times, and resumes detection behind the last whole period (or ends at the end of the trace) |
| `StepDetector.Emit` | straggler-algorithms/step_detector.py:109-125 | one emitted step carries its number, the pattern, the time of its first event, the time of the event after it (of its last event at the end of the trace), and the time between in milliseconds |
| `StepDetector.Round` | straggler-algorithms/step_detector.py:91-132 | one round of the outer loop, whatever the warm-up limit: it reports the whole periods of the detected run, with the trace's times, and the next round starts behind them, or a warm-up limit further when nothing is detected |
| `StepDetector.DetectSteps` | straggler-algorithms/step_detector.py:73-134 | with or without explicit limits, whenever the machine gets through the trace, its steps are, in order, the whole periods of the successively detected runs, each with its number, the kinds of its own events, its own times and its duration in milliseconds |
| `StepReports.DetectionExact` | straggler-algorithms/step_detector.py:39-69 | the period a scan finds, in terms of the events: that of the first stretch from its start, longer than the warm-up and within the scan, that is two or more copies of its smallest period |
| `StepReports.DetectedRunExact` | straggler-algorithms/step_detector.py:98-132 | the run of a detected period ends where an event first differs from the one a period before it, or at the end of the trace |
| `StepReports.RoundsExact` | straggler-algorithms/step_detector.py:91-132 | the rounds of the machine without recursion: each starts where the one before it leads (a warm-up further, or behind the last whole period of its run), and what is reported is exactly the whole periods of their runs |
| `StepReports.DefaultsWritten` | straggler-algorithms/step_detector.py:80-85 | the default limits in plain numbers, and the scan of a warm-up limit and three windows |
| `StepReports.RunsExact` | straggler-algorithms/step_detector.py:80-92 | the run found at each index, by the limits in force |
| `StepReports.StepsExact` | straggler-algorithms/step_detector.py:73-134 | what the reported steps carry: disjoint intervals in order, each step numbered, with the kinds of its interval as a primitive pattern, its times and duration, and an equal neighbour |
| `StepDetector.MachineEnds` | straggler-algorithms/step_detector.py:91-96 | the machine reaches the end of the trace after some number of rounds if and only if its warm-up limit is positive or every round detects a run: with a limit of 0 one undetected index stops it for ever |
| `StepDetector.ShortTraceStalls` | straggler-algorithms/step_detector.py:91-96 | an input on which it never ends: with a limit of 0 the machine stays at the start of any trace of one, two or three events |
| `StepTheorems.SpansOrdered` | straggler-algorithms/step_detector.py:91-132 | steps are disjoint intervals of at least two events, in trace order |
| `StepTheorems.SpansSpelled` | straggler-algorithms/step_detector.py:91-132 | every step spells a primitive pattern and has an abutting neighbour that spells the same one: no step stands alone |
| `StepTheorems.StepsAreRuns` | straggler-algorithms/step_detector.py:73-134 | for every trace and all limits with which the machine gets through it: steps are ordered, disjoint, at least two events long, primitive, and come in runs of two or more |
| `StepTheorems.StepsInTime` | straggler-algorithms/step_detector.py:110-125 | on a time-sorted trace abutting steps also abut in time, no step starts before the one before it ends, and durations are not negative |
| `StepRecovery.RecoveryCondition` | straggler-algorithms/step_detector.py:39-134 | on a repetition of a primitive block the steps are the copies of the block if and only if the scan can reach twice the block past the warm-up and no shorter prefix past the warm-up is a repetition |
| `StepRecovery.StepsRecovered` | straggler-algorithms/step_detector.py:73-134 | the same condition for the reported steps, with the default limits filled in: the report is exactly one step per whole copy of the block if and only if it holds |
| `StepRecovery.ExactRecovery` | straggler-algorithms/step_detector.py:39-134 | with 2p <= warm-up + 1 <= n, a trace of n events repeating a primitive block of p >= 2 events (last copy possibly cut short) yields exactly floor(n/p) steps, all with that block as pattern |
| `StepRecovery.DefaultRecovery` | straggler-algorithms/step_detector.py:80-85 | the default limits recover every primitive block of 2 to 25 events from ten copies or more |
| `StepReports.BlocksReported` | straggler-algorithms/step_detector.py:39-134 | with a long enough warm-up the returned steps of a repeated primitive block are one per whole copy: number t, the block as pattern, from the time of the copy's first event to that of the next copy's, with that duration |
| `StepReports.DefaultBlocksReported` | straggler-algorithms/step_detector.py:80-134 | the same with the default limits, for blocks of 2 to 25 events and ten copies or more |
| `StepRecovery.ShortWarmupMisleads` | straggler-algorithms/step_detector.py:58-67 | with a shorter warm-up recovery fails: on two copies of 0 1 0 1 2, with a limit of 3 or the default one and any window size, the reported steps are not the copies of the block, and every scan of four events or more detects the pattern 0 1 |
| `Topsort.BuildTables` | CollScope-NS3/bindings/python/topsort.py:77-90 | the tables hold, for every element of any pair, its number of parents with duplicate pairs counted, and its children in pair order with duplicates kept |
| `Topsort.KeysAtZero` | CollScope-NS3/bindings/python/topsort.py:93 | the starting elements are exactly those without parent, each once |
| `Topsort.ReleaseChild` | CollScope-NS3/bindings/python/topsort.py:100-103 | one child: its count drops by one, and it is appended exactly when it has reached zero |
| `Topsort.ReleaseChildren` | CollScope-NS3/bindings/python/topsort.py:100-103 | each child's count drops by the number of pairs that name it, and exactly the children that reach zero are appended, each once |
| `Topsort.TakeOut` | CollScope-NS3/bindings/python/topsort.py:98-106 | one element leaves both tables after its children have been knocked down |
| `Topsort.Turn` | CollScope-NS3/bindings/python/topsort.py:97-106 | one turn of the loop over the growing answer keeps: sorted part topological, waiting part exactly the live elements without live parents, tables describing the rest |
| `Topsort.Topsort` | CollScope-NS3/bindings/python/topsort.py:61-112 | the answer is topological and duplicate-free; it holds every element, or an error is raised with the left-over counts, all positive; the error is raised if and only if the pairs contain a directed cycle, and the elements left over are then exactly those on or below a cycle |
| `Topsort.ParentsComeFirst` | CollScope-NS3/bindings/python/topsort.py:64 | in a topological answer each parent stands before its child |
| `Topsort.ClosedWalkNotSorted` | CollScope-NS3/bindings/python/topsort.py:108-111 | no element of a directed cycle is ever sorted |
| `Topsort.StuckHoldsCycle` | CollScope-NS3/bindings/python/topsort.py:108-111 | when every left-over element still has a left-over parent, a cycle among the left-over elements exists (pigeonhole on a walk to parents) |
| `Topsort.SortEnds` | CollScope-NS3/bindings/python/topsort.py:108-112 | the sort ends with elements left over exactly when there is a cycle |
| `Topsort.LeftOverIsBelowCycle` | CollScope-NS3/bindings/python/topsort.py:108-111 | an element is missing from the answer if and only if it is on or below a directed cycle |
| `Topsort.LeftOverHaveChildren` | CollScope-NS3/bindings/python/topsort.py:108-110 | the source's comment that every left-over element has a child holds if and only if every element on or below a cycle is the parent in some pair |
| `Topsort.LeftOverWithoutChild` | CollScope-NS3/bindings/python/topsort.py:108-110 | an input on which that comment is wrong: sorting (2,3), (3,2), (3,4) leaves 2, 3 and 4 over, and 4 has no child |
| `Digraph.InDegreeDrops` | CollScope-NS3/bindings/python/topsort.py:100-101 | taking out a parent lowers a child's in-degree by the number of pairs between them |
| `Digraph.InDegreeCounted` | CollScope-NS3/bindings/python/topsort.py:77-90 | in plain terms: the in-degree is the number of pairs from live elements |
| `Digraph.ChildrenReadOff` | CollScope-NS3/bindings/python/topsort.py:77-90 | the children are those of all the element's pairs, in the order of the pairs |
| `Digraph.ParentsForceCycle` | CollScope-NS3/bindings/python/topsort.py:108-111 | a finite non-empty set in which every element has a parent inside the set contains a simple cycle |
| `TopsortLevels.LowerCounts` | CollScope-NS3/bindings/python/topsort.py:222-223 | each child's count drops by the number of pairs that name it |
| `TopsortLevels.WithdrawLevel` | CollScope-NS3/bindings/python/topsort.py:217-224 | withdrawing a level leaves the tables of the graph without it |
| `TopsortLevels.LevelIsExact` | CollScope-NS3/bindings/python/topsort.py:205 | after k levels, a remaining item has no remaining parent exactly when its longest chain of pairs has k edges |
| `Digraph.ChainIsWalk` | CollScope-NS3/bindings/python/topsort.py:205 | a chain of k pairs leads to an element exactly when a walk of k + 1 elements ends at it |
| `TopsortLevels.EmitLevel` | CollScope-NS3/bindings/python/topsort.py:212-224 | one round keeps: emitted levels exact, remaining items exactly those at which a chain of that many pairs ends |
| `TopsortLevels.LevelsEnd` | CollScope-NS3/bindings/python/topsort.py:207-229 | when no item is left at zero, the remaining items are exactly those with unboundedly long chains, and some remain exactly when there is a cycle |
| `TopsortLevels.TopsortLevelsCore` | CollScope-NS3/bindings/python/topsort.py:174-232 | from any consistent tables, the k-th level is exactly the set of items whose longest chain of pairs has k edges; the error comes exactly when there is a cycle |
| `TopsortLevels.TopsortLevels` | CollScope-NS3/bindings/python/topsort.py:114-172 | the emitted elements are exactly those with no cycle among themselves and their ancestors; the error carries exactly the others |
| `Digraph.UnboundedIffBelow` | CollScope-NS3/bindings/python/topsort.py:226-229 | an element has arbitrarily long chains if and only if it is on or below a cycle |
| `Digraph.UnboundedBelowCycle` | CollScope-NS3/bindings/python/topsort.py:226-229 | a chain as long as the number of elements forces a cycle above its end |
| `Rotations.IsRotated` | CollScope-NS3/bindings/python/rad_util.py:735-775 | true exactly when the sequences are rotations of each other, repeated items included; two empty sequences have no answer (the source raises IndexError) |
| `Rotations.RotationTransitive` | CollScope-NS3/bindings/python/rad_util.py:735-775 | being a rotation is transitive (and, by RotationSymmetric, symmetric), so removing duplicates keeps one cycle per class |
| `CycleFinder.AddCycle` | CollScope-NS3/bindings/python/topsort.py:369-378 | a cycle is recorded unless a rotation of it is there already; afterwards a rotation of it is recorded and no two records are rotations of each other |
| `CycleFinder.Expand` | CollScope-NS3/bindings/python/topsort.py:353-385 | popping a path records every cycle its children close, pushes every simple extension, marks as visited only nodes the root reaches, and uses up one unit of the finite number of simple paths left |
| `CycleFinder.TailIsCycle` | CollScope-NS3/bindings/python/topsort.py:367-369 | the part of the path from the first occurrence of the child is a genuine simple cycle |
| `CycleFinder.CycleOnPath` | CollScope-NS3/bindings/python/topsort.py:346-385 | every simple cycle that a root's path meets is closed by some simple path from that root |
| `CycleFinder.RootCovers` | CollScope-NS3/bindings/python/topsort.py:346-349 | when all simple paths from a root are explored, every cycle through any node it reaches has been found, so skipping visited roots loses nothing |
| `CycleFinder.SearchFrom` | CollScope-NS3/bindings/python/topsort.py:351-385 | the search from one root terminates with every simple path from it explored |
| `CycleFinder.FindCycles` | CollScope-NS3/bindings/python/topsort.py:235-385 | only simple cycles of the graph are yielded, no two of them rotations of each other, and every simple cycle is a rotation of a yielded one |
| `RouteSearch.Discover` | CollScope-NS3/scratch/hybrid_dppp.cc:406-414 | a newly met node gets the next distance and the figures of the tree path extended by this link; only a switch is queued |
| `RouteSearch.VisitNeighbour` | CollScope-NS3/scratch/hybrid_dppp.cc:399-418 | one neighbour: down links are skipped, undiscovered nodes discovered, and the expanding node recorded as next hop exactly when it is one step closer |
| `RouteSearch.SearchComplete` | CollScope-NS3/scratch/hybrid_dppp.cc:396-419 | when the queue is used up, every node reachable through switches is found, at no more than the length of any walk |
| `RouteSearch.SearchEnds` | CollScope-NS3/scratch/hybrid_dppp.cc:396-426 | the finished search holds the shortest up-distances through switches and, for every node, exactly the closer neighbours that may forward, each once |
| `RouteSearch.SearchFrom` | CollScope-NS3/scratch/hybrid_dppp.cc:381-426 | the search from a host computes shortest distances, the exact next-hop sets, and delay, transmission time and bottleneck rate along one common shortest path |
| `Links.DistancesUnique` | CollScope-NS3/scratch/hybrid_dppp.cc:384 | there is one distance map: the shortest up-walk through switches to each node |
| `Links.ReachIsPath` | CollScope-NS3/scratch/hybrid_dppp.cc:396-419 | in plain terms: a node is reached in k steps exactly when a path of k up links leads to it from the host whose inner nodes are all switches |
| `Links.BottleneckIsMinimum` | CollScope-NS3/scratch/hybrid_dppp.cc:409 | the recorded rate is no more than that of any link on the path and equals one of them (or the initial maximum) |
| `Links.DelayIsSum` | CollScope-NS3/scratch/hybrid_dppp.cc:407 | the delay of a path is the sum of its links' delays, modulo 2 to the 64 |
| `Links.TxIsSum` | CollScope-NS3/scratch/hybrid_dppp.cc:408 | its transmission time is the sum of its links' transmission times, modulo 2 to the 64 |
| `Links.TxTimeIsFloor` | CollScope-NS3/scratch/hybrid_dppp.cc:408 | where nothing wraps around, a packet's transmission time is the number of whole nanoseconds its bits take at the link's rate |
| `Links.RoutedHasHop` | CollScope-NS3/scratch/hybrid_dppp.cc:416-418 | every reached node other than the host has a next hop |
| `Links.ForwardingIsLoopFree` | CollScope-NS3/scratch/hybrid_dppp.cc:410-418 | any choices among equal-cost next hops follow up links through switches only, never repeat a node, and end at the host after exactly the distance |
| `Routing.Network.AddLink` | CollScope-NS3/scratch/hybrid_dppp.cc:984-991 | setting up a link enters it in both directions, up and with the same delay and rate, which is what makes the link map symmetric |
| `Routing.Network.CalculateRoute` | CollScope-NS3/scratch/hybrid_dppp.cc:381-426 | with no earlier entries for the host, next hops are exact, other hosts' entries are untouched, and the tables of all pairs hold for every reached node the delay, transmission time and rate of one shortest path |
| `Routing.Network.CalculateRoutes` | CollScope-NS3/scratch/hybrid_dppp.cc:428-434 | every host among the nodes is routed exactly; switches get no entries |
| `Routing.InstallNode` | CollScope-NS3/scratch/hybrid_dppp.cc:441-457 | a node's table gains exactly the interface numbers that the link map has towards the recorded next hops, per destination |
| `Routing.Network.SetRoutingEntries` | CollScope-NS3/scratch/hybrid_dppp.cc:436-459 | all tables gain exactly those interfaces, in next-hop order |
| `Routing.RoutedIsWired` | CollScope-NS3/scratch/hybrid_dppp.cc:448-456 | in a routed network the entries at a node for a host are, one by one, the interface numbers of its links to the next hops |
| `Routing.Network.Configure` | CollScope-NS3/scratch/hybrid_dppp.cc:1101-1103 | after set-up, routes and tables agree with the up links: every table holds, for each recorded next hop in order, the number of the interface towards it, and nothing else |
| `Routing.Network.LinkDown` | CollScope-NS3/scratch/hybrid_dppp.cc:463-466 | exactly the two directions of the link are marked down; everything else about every link is kept |
| `Routing.ClearTables` | CollScope-NS3/scratch/hybrid_dppp.cc:469-475 | the tables of all nodes are emptied, no others |
| `Routing.Network.TakeDownLink` | CollScope-NS3/scratch/hybrid_dppp.cc:462-486 | exactly the two directions of the link go down and every other figure is kept; symmetry, exact routes and matching tables hold again; a link already down changes nothing |
| `Routing.Network.TakeDownLinks` | CollScope-NS3/scratch/hybrid_dppp.cc:462-486 | after any sequence of failures exactly the links no failure names remain up, and symmetry, exact routes, matching tables and distinct interface numbers hold |
| `Routing.EntriesAreUp` | CollScope-NS3/scratch/hybrid_dppp.cc:448-456 | every installed entry towards a host belongs to a link that is up, towards a genuine next hop |
| `Routing.PacketsArrive` | CollScope-NS3/scratch/hybrid_dppp.cc:410-459 | packets handed on by the recorded next hops arrive after exactly as many hops as the shortest walk, without passing a host or repeating a node, and are never stuck |
| `Routing.EntryLeadsToHop` | CollScope-NS3/scratch/hybrid_dppp.cc:448-456 | with one interface number per neighbour, an interface installed for a host can only lead to a recorded next hop |
| `Routing.TablePacketsArrive` | CollScope-NS3/scratch/hybrid_dppp.cc:436-459 | packets forwarded by the interface numbers installed in the tables arrive after exactly as many hops as the shortest walk, without passing a host or repeating a node, and always find an entry before they arrive |
| `Clos.HostLinks` | CollScope-NS3/topo_generator/clos.py:36-41 | host i is linked to rack switch total + i div per-rack, although the script only counts |
| `Clos.FullMesh` | CollScope-NS3/topo_generator/clos.py:44-53 | each nested loop emits every pair of its two layers, and as many lines as pairs |
| `Clos.Generate` | CollScope-NS3/topo_generator/clos.py:5-53 | for all counts: division by zero or an indivisible total is an error; otherwise the header counts nodes, switches and links as the script's formulas do, in plain numbers, the link count is that of the emitted lines, and the lines are exactly the intended links |
| `Loading.LoadLinks` | CollScope-NS3/scratch/hybrid_dppp.cc:941-991 | reading the link lines gives both directions of every line an interface that is up, with the delay and rate of the last line between the two nodes and the number of the device added for it, and no other interfaces |
| `Loading.LoadLine` | CollScope-NS3/scratch/hybrid_dppp.cc:971-991 | one line adds a device to either node, after those of the lines before it and the loopback device, and replaces the interfaces between the two nodes only |
| `Loading.LoadedFacesDistinct` | CollScope-NS3/scratch/hybrid_dppp.cc:984-991 | on a loaded topology the interfaces of a node to different neighbours have different numbers, parallel and self links included |
| `Loading.LoadedUpLinks` | CollScope-NS3/scratch/hybrid_dppp.cc:984-991 | the up links are exactly the pairs some line joins |
| `Loading.LoadedFace` | CollScope-NS3/src/network/model/node.cc:108-119 | the interface of a loaded link in plain numbers: delay and rate of the last line between the two nodes, numbered by the lines up to it that the node is an end of |
| `Clos.ClosDistances` | CollScope-NS3/scratch/hybrid_dppp.cc:381-426 | on every such topology the distances from a host are those of the layer formula |
| `Clos.HostDistances` | CollScope-NS3/scratch/hybrid_dppp.cc:381-426 | two hosts are 2 apart in one rack and 4 apart across racks |
| `Clos.RackSwitchHops` | CollScope-NS3/scratch/hybrid_dppp.cc:410-418 | a rack switch's next hops are all cluster switches for a host of another rack, and the host itself in its own rack |
| `Clos.AggregationUnused` | CollScope-NS3/scratch/hybrid_dppp.cc:410-418 | no packet between hosts ever visits an aggregation switch |
| `Clos.SetUp` | CollScope-NS3/scratch/hybrid_dppp.cc:888-1103 | generating a topology, reading it in and configuring the network leaves it running: its links are the topology's, interface numbers are distinct at every node, routes and tables agree with them |
| `Clos.HostsReachEachOther` | CollScope-NS3/scratch/hybrid_dppp.cc:381-459 | end to end on a running network: a packet between hosts, forwarded by the interface numbers in the tables, arrives after exactly two hops within a rack and four across racks, never visits an aggregation switch and is never stuck |
| `WorkerPool.ConservedStep` | CollScope-NS3/test.py:921-989 | no step of any thread loses, duplicates or invents a job |
| `WorkerPool.PhasesStep` | CollScope-NS3/test.py:1575-1578 | sentinels come after all jobs and there is exactly one per worker, taken or still queued |
| `WorkerPool.BreaksStep` | CollScope-NS3/test.py:935-938 | a job is marked interrupted only after the interrupt flag was set |
| `WorkerPool.MainStep` | CollScope-NS3/test.py:1594-1619 | the main thread's counters always describe what it has collected |
| `WorkerPool.InvAlways` | CollScope-NS3/test.py:921-989 | all of this holds in every state of every interleaving, with the interrupt at any moment |
| `WorkerPool.NoJobLeftBehind` | CollScope-NS3/test.py:928-929 | no worker exits while a real job is undispatched or still in the input queue |
| `WorkerPool.CollectedAreAll` | CollScope-NS3/test.py:1594-1619 | when main has collected as many results as jobs, they are the dispatched jobs, each exactly once, and the output queue is empty |
| `WorkerPool.NeverStuck` | CollScope-NS3/test.py:921-989 | with at least one worker (or nothing to do) every unfinished state has an enabled step |
| `WorkerPool.NoDeadlock` | CollScope-NS3/test.py:921-989 | an execution with workers (or without jobs) whose last state allows no step but the interrupt has finished |
| `WorkerPool.CanFinish` | CollScope-NS3/test.py:921-989 | whatever has happened so far, every such execution can be continued to a finished one |
| `WorkerPool.StuckWithoutWorkers` | CollScope-NS3/test.py:1594-1595 | without workers and with jobs, the run is stuck for ever once everything is dispatched: the condition on the workers is needed |
| `WorkerPool.StepsUseWork` | CollScope-NS3/test.py:921-989 | every step uses up some of a finite amount of work, whichever thread takes it |
| `WorkerPool.ExecutionsEnd` | CollScope-NS3/test.py:1313-1316 | every interleaving ends after at most 7 steps per job, 5 per worker and 2 |
| `WorkerPool.TallyCounts` | CollScope-NS3/test.py:1607-1619 | passed plus skipped equals the number of jobs exactly when every job passed or was skipped and none was interrupted |
| `WorkerPool.FinishedRun` | CollScope-NS3/test.py:1736-1803 | a finished run has one result per job, every job among them once, all workers stopped and joined, and exit code 0 exactly when every job passed or was skipped, uninterrupted |
| `PoolHistory.DrawnInOrder` | CollScope-NS3/test.py:921-929 | workers draw the jobs in the order of dispatch, and sentinels after them |
| `PoolHistory.CollectedInOrder` | CollScope-NS3/test.py:935-989 | the main thread collects the records in the order in which they are put |
| `PoolHistory.JobHistory` | CollScope-NS3/test.py:921-989 | every collected record was drawn, looked at once and put by one worker in one turn: it is broken exactly when the exit flag was set at the look, and was not run then; a job to be skipped was not run; any other was run exactly once in the turn and carries the code that run returned |
| `PoolHistory.ReturnIsCollected` | CollScope-NS3/test.py:963-978 | in a finished run, every returned code is that of a collected job, neither broken nor skipped |
| `PoolHistory.ExitCodeMeans` | CollScope-NS3/test.py:1800-1803 | the exit code in terms of what happened: 0 exactly when every run returned 0 and no worker looked at a job with the exit flag set |
| `PoolHistory.TallyExact` | CollScope-NS3/test.py:1598-1619 | the counters of the summary are the numbers of results by verdict: broken ones not counted, skipped ones by the flag, the others by their code |
| `Changepoints.ConfirmLoop` | straggler-algorithms/changepoint_detector.py:30-61 | confirmation returns the first index from the trigger on, within five counts, whose window is full enough and convincing, or nothing when there is none |
| `Changepoints.CusumIsPeak` | straggler-algorithms/changepoint_detector.py:115-117 | each accumulator is the maximum over all sums of its terms that end here and start no earlier than the last reset, the empty one included |
| `Changepoints.NeverBothAlarms` | straggler-algorithms/changepoint_detector.py:115-142 | from two accumulators within the alarm level one sample cannot push both above it |
| `Changepoints.RejectionHidesNothing` | straggler-algorithms/changepoint_detector.py:119-161 | continuing with the next sample after a rejected upward alarm finds the same change as also looking for a downward alarm in that sample |
| `Changepoints.NoSegmentHidesAlarms` | straggler-algorithms/changepoint_detector.py:92-161 | this holds in every segment with non-negative factors, whatever the square root returns |
| `Changepoints.ScanSegment` | straggler-algorithms/changepoint_detector.py:109-161 | the loop with resets finds the first confirmed alarm of the specification over accumulators |
| `Changepoints.NextPoint` | straggler-algorithms/changepoint_detector.py:87-161 | one segment yields the change point of its first confirmed alarm, with the means before and after, or nothing |
| `Changepoints.DetectChangepoints` | straggler-algorithms/changepoint_detector.py:64-171 | the segment loop terminates and reports the chain of segment ends that have a full baseline behind them |
| `Changepoints.SegmentsChained` | straggler-algorithms/changepoint_detector.py:87-161 | consecutive change points are a baseline or more apart, and each new mean is the next one's old mean |
| `Changepoints.FilterDropsAtMostLast` | straggler-algorithms/changepoint_detector.py:166-169 | the tail filter drops the last point or nothing |
| `Changepoints.ReportedChain` | straggler-algorithms/changepoint_detector.py:64-171 | reported points form a chain inside the data, and (count + 1) * baseline size <= n |
| `Changepoints.ReportedIncrease` | straggler-algorithms/changepoint_detector.py:64-171 | reported points are at ever later steps, whatever the parameters |
| `ChangeReports.AlarmExact` | straggler-algorithms/changepoint_detector.py:115-119 | with the data spelled out: an alarm is raised exactly when some stretch of samples since the last reset sums to more than its length times mean plus slack, plus the alarm level (upward), or to less than its length times mean minus slack, minus the level (downward) |
| `ChangeReports.ConvincingExact` | straggler-algorithms/changepoint_detector.py:43-59 | an index confirms exactly when a whole count of samples is left and, in the window of two counts, a fifth of the samples or their mean lies beyond the threshold, above it for a rise and below it for a fall |
| `ChangeReports.ConfirmExact` | straggler-algorithms/changepoint_detector.py:37-61 | an alarm is confirmed at the first such index of the five counts from it on, a count being at least 1 |
| `ChangeReports.ScanExact` | straggler-algorithms/changepoint_detector.py:109-161 | the scan without recursion: every sample before the one that ends the segment raises no alarm or one that is not confirmed, which resets its own sum; the one that ends it raises an alarm that is confirmed, an upward one first |
| `ChangeReports.UnitExact` | straggler-algorithms/changepoint_detector.py:90-105 | the unit of the alarm levels is the standard deviation of the baseline, with its substitutes on constant data, or two hundredths of the mean, whichever is more |
| `ChangeReports.LevelsExact` | straggler-algorithms/changepoint_detector.py:106-107 | mean, slack and alarm level of a segment |
| `ChangeReports.ThresholdExact` | straggler-algorithms/changepoint_detector.py:122-144 | the thresholds are the mean, moved up or down by the least percentage |
| `ChangeReports.PointExact` | straggler-algorithms/changepoint_detector.py:125-136 | a change point carries the index, the old mean, the mean of the samples from it on, the direction of its alarm, and the change in percent of the old mean |
| `ChangeReports.SegmentExact` | straggler-algorithms/changepoint_detector.py:80-161 | what one segment yields, with all of that |
| `ChangeReports.ReportedExact` | straggler-algorithms/changepoint_detector.py:64-171 | what is reported: the points that end one segment after the other, each segment starting at the point before it, without the last one when less than a baseline is left |
| `Jumps.JumpReported` | straggler-algorithms/changepoint_detector.py:64-171 | on data that stays at one value for a baseline and at another from then on, the report is exactly the jump: its index by the number of samples it takes to build up an alarm, both values, its direction and the change in percent |
| `Jumps.DoublingReported` | straggler-algorithms/changepoint_detector.py:68-171 | with the default parameters, durations that double from step 100 on are one change, upwards, at step 100, by 100 percent |
| `Jumps.HalvingReported` | straggler-algorithms/changepoint_detector.py:68-171 | and durations that are halved are one change, downwards, by 50 percent |
| `Diagnose.StepToRawLine` | straggler-algorithms/diagnose.py:82-94 | the first raw line at or after the step's start time, the last line when there is none or the step does not exist |
| `Diagnose.RawLineMonotone` | straggler-algorithms/diagnose.py:82-94 | later steps never map to earlier lines |
| `Diagnose.RawLineExact` | straggler-algorithms/diagnose.py:89-93 | a start time that occurs in a sorted trace maps to a line that carries it |
| `Diagnose.StepsMapExactly` | straggler-algorithms/diagnose.py:164-170 | end to end on a time-sorted trace: the detected steps' start times are sorted, and each step maps to a raw line with exactly its start time |
| `Diagnose.LineRanges` | straggler-algorithms/diagnose.py:179-195 | range t starts at the line of change point t and ends at the line of the next one or at the shortest trace; looking the point up by equality finds its own position |
| `Diagnose.RangesInOrder` | straggler-algorithms/diagnose.py:179-195 | for sorted step times and increasing points, the ranges of successive change points are disjoint and in order |
| `Diagnose.DiagnosedRangesInOrder` | straggler-algorithms/diagnose.py:146-195 | end to end on a time-sorted trace: the ranges of the reported change points, looked up through the detected steps, are disjoint and in order |
| `Diagnose.DiagnosedRanges` | straggler-algorithms/diagnose.py:146-195 | the chain itself: change points of the durations, steps of the baseline trace, their start times, and the line range of every change point |
| `Diagnose.RangeEnds` | straggler-algorithms/diagnose.py:184-195 | every range ends by the end of the shortest trace, at the line of the next change point or there, and the last one there |
| `Diagnose.EntriesExact` | straggler-algorithms/step_detector.py:28-35 | the events read are exactly the entry lines of the trace, in their order |
| `Diagnose.Slide` | straggler-algorithms/diagnose.py:123-128 | the rolling count is right in every position, the last window included |
| `Diagnose.DetectRolling` | straggler-algorithms/diagnose.py:115-128 | true exactly when some n consecutive compared samples reach the threshold, or all of them when fewer than n could be compared |
| `Diagnose.DetectSlowInRange` | straggler-algorithms/diagnose.py:98-128 | for every range: equal to the naive definition over all windows, and to the overall ratio when the range is shorter than a window |
| `Diagnose.ComparedExact` | straggler-algorithms/diagnose.py:106-117 | the compared samples are those of the range that both traces have |
| `Diagnose.ShortRangeExact` | straggler-algorithms/diagnose.py:104-112 | in plain numbers: in a range shorter than a window a node is slow exactly when the given percentage of the range is late by more than the limit of microseconds |
| `Diagnose.FewSamplesExact` | straggler-algorithms/diagnose.py:114-128 | with fewer samples than a window to compare, exactly when that percentage of a window is late |
| `Diagnose.WindowsExact` | straggler-algorithms/diagnose.py:114-128 | otherwise exactly when in some window of compared samples that percentage is late |
| `Backprojection.BuildTopology` | straggler-algorithms/backprojection.py:124-142 | the edges are exactly both directions of the link lines; an edge's delay is that of the last line between its two nodes that has a delay column, and delays are only on known edges |
| `FlowTables.LastDelayExact` | straggler-algorithms/backprojection.py:135-138 | the delay of an edge is that of the last line between its nodes that gives one |
| `Backprojection.DelaySymmetric` | straggler-algorithms/backprojection.py:132-137 | both directions of a link are known together and have the same delay |
| `Backprojection.CombinePathNodes` | straggler-algorithms/backprojection.py:175-181 | the path is the nodes with repeated neighbours merged |
| `Backprojection.MergedPath` | straggler-algorithms/backprojection.py:175-181 | a merged path has no node twice in a row, keeps both ends, and is a single node (a flow counted as missing its route) exactly when all nodes are the same |
| `FlowTables.MergedGroups` | straggler-algorithms/backprojection.py:175-181 | merging keeps one node of every group of equal neighbours, and nothing else |
| `Backprojection.ClassifyIsFair` | straggler-algorithms/backprojection.py:273-278 | every used flow has a path, and its equal shares add up to its projected value |
| `FlowTables.UnusableExact` | straggler-algorithms/backprojection.py:259-266 | from the flow and the topology: a path of fewer than two nodes is a missing route, and one with a hop of unknown delay a missing path edge |
| `FlowTables.UsableExact` | straggler-algorithms/backprojection.py:268-272 | any other flow is used exactly when its completion time less the sum of its hops' delays reaches the minimum, and that difference is its residual |
| `FlowTables.UsedExact` | straggler-algorithms/backprojection.py:273-274 | a used flow's value is its residual, per byte when sizes are normalised and positive, and its share is what each hop gets when they all get the same |
| `Backprojection.ShareOut` | straggler-algorithms/backprojection.py:274-280 | each edge of the path gets one share and one count per crossing and the flow's residual as a candidate maximum; the totals grow by all shares and by the number of crossings |
| `Backprojection.ProcessFlow` | straggler-algorithms/backprojection.py:258-281 | a flow is counted under exactly one of the four outcomes, and only a used one changes the table |
| `Backprojection.ComputeBackprojection` | straggler-algorithms/backprojection.py:240-283 | every row is the sum over the flows; total score is the sum of projected values of the used flows, total count the number of edge crossings |
| `FlowTables.RowExact` | straggler-algorithms/backprojection.py:258-281 | a row of the table in plain numbers: the sum of the shares, one per hop over the edge; the number of those hops; and the largest residual among the used flows that cross the edge; the rows are those of the topology's edges and of the crossed ones |
| `FlowTables.StatsExact` | straggler-algorithms/backprojection.py:250-281 | each counter is the number of flows with its outcome |
| `Backprojection.ParsedCount` | straggler-algorithms/backprojection.py:250-281 | the four outcome counters partition the parsed flows |
| `Backprojection.NoLateEdges` | straggler-algorithms/backprojection.py:276-277 | with a topology built from link lines no edge is ever inserted late |
| `Backprojection.SameFlowsSameTable` | straggler-algorithms/backprojection.py:258-281 | the resulting table does not depend on the order of the flows |
| `Backprojection.SameFlowsSameStats` | straggler-algorithms/backprojection.py:250-281 | nor do the counters |
| `Backprojection.FoldUndirected` | straggler-algorithms/backprojection.py:292-302 | each undirected row merges the rows of both directions, and folding preserves total score and total count |
| `FlowTables.FoldedRow` | straggler-algorithms/backprojection.py:292-302 | the row of an undirected link: scores and counts of both directions added up, and the larger of the largest residuals |
| `RequestQueue.PurgeRemovesPrefix` | CollScope-NS3/src/aodv/model/aodv-rqueue.cc:124-138 | with expiry times in order, purging cuts off a front part of the queue |
| `RequestQueue.StepKeepsSound` | CollScope-NS3/src/aodv/model/aodv-rqueue.cc:41-147 | every call, setters included, keeps (packet, destination) pairs distinct, the queue in order of acceptance, and every accepted entry queued, dequeued or reported exactly once |
| `RequestQueue.StepKeepsTidy` | CollScope-NS3/src/aodv/model/aodv-rqueue.h:74-75 | non-decreasing expiry times within the timeout survive a call if and only if the call does not set the timeout below what a queued entry still has |
| `RequestQueue.StepKeepsBound` | CollScope-NS3/src/aodv/model/aodv-rqueue.cc:61-66 | the length bound survives a call if and only if the call does not set it below the current length |
| `RequestQueue.StepKeepsSettings` | CollScope-NS3/src/aodv/model/aodv-rqueue.cc:41-147 | expiry order, timeout and length bound together survive a call if and only if it is no setter that undercuts the queue |
| `RequestQueue.RunWithinSettings` | CollScope-NS3/src/aodv/model/aodv-rqueue.cc:41-147 | over every run of calls, setters included: order, timeout and bound hold throughout if and only if no setter undercuts the queue it is called on |
| `RequestQueue.OverfullGrows` | CollScope-NS3/src/aodv/model/aodv-rqueue.cc:61-67 | because the length is compared for equality, a queue beyond its bound grows with every accepted entry; after accepting, the bound holds exactly when it held after purging |
| `RequestQueue.LoweredBoundExample` | CollScope-NS3/src/aodv/model/aodv-rqueue.cc:61-67 | an input on which the bound breaks: two entries, the bound lowered from 2 to 1, and one more accepted make three entries |
| `RequestQueue.StepKeepsOrder` | CollScope-NS3/src/aodv/model/aodv-rqueue.cc:48-68 | the order of expiry by itself survives every call, except that accepting an entry keeps it if and only if nothing is left in front of the entry or the last entry in front of it expires no later |
| `RequestQueue.RunKeepsOrder` | CollScope-NS3/src/aodv/model/aodv-rqueue.cc:41-147 | over every run of calls: the queue is sorted by expiry throughout if and only if every entry offered is refused or enters in order where it is offered |
| `RequestQueue.LoweredTimeoutUnsorts` | CollScope-NS3/src/aodv/model/aodv-rqueue.h:118 | lowering the timeout below what the last entry still has makes the next accepted one expire before it |
| `RequestQueue.LoweredTimeoutExample` | CollScope-NS3/src/aodv/model/aodv-rqueue.h:118 | an input on which it happens: one entry expiring at 10, the timeout lowered to 2, and a second entry accepted at 0 |
| `RequestQueue.RunIsSound` | CollScope-NS3/src/aodv/model/aodv-rqueue.cc:41-147 | accounting and distinctness over every run of calls |
| `RequestQueue.RunIsTidy` | CollScope-NS3/src/aodv/model/aodv-rqueue.cc:41-147 | with fixed settings, length bound and expiry order over every run of calls |
| `RequestQueue.DuplicateIsLive` | CollScope-NS3/src/aodv/model/aodv-rqueue.cc:51-59 | an entry is refused exactly when a live one has its packet and destination |
| `RequestQueue.DequeueIsEarliest` | CollScope-NS3/src/aodv/model/aodv-rqueue.cc:87-101 | dequeuing hands out the first-accepted, first-expiring live entry for the destination, exactly when there is one |
| `RequestQueue.OverflowDropsOldest` | CollScope-NS3/src/aodv/model/aodv-rqueue.cc:61-66 | a full queue reports and drops an entry that no other expires before |
| `QueueCalls.PurgeExact` | CollScope-NS3/src/aodv/model/aodv-rqueue.cc:114-138 | purging keeps exactly the entries that expire no earlier than now, in order, and reports the others, in order |
| `QueueCalls.DropExact` | CollScope-NS3/src/aodv/model/aodv-rqueue.cc:70-85 | dropping for a destination keeps exactly the live entries for the others, in order, and reports those for it, in order |
| `QueueCalls.EnqueueExact` | CollScope-NS3/src/aodv/model/aodv-rqueue.cc:48-68 | offering an entry: refused without change when packet and destination are there; otherwise put last, to expire a timeout from now, the first entry being reported and dropped when the length equals the bound |
| `QueueCalls.DequeueExact` | CollScope-NS3/src/aodv/model/aodv-rqueue.cc:87-101 | dequeuing takes out the first live entry for the destination, and changes nothing without one |
| `RequestQueue.Buffer.Purge` | CollScope-NS3/src/aodv/model/aodv-rqueue.cc:124-138 | all expired entries are reported in order and removed, nothing else changes |
| `RequestQueue.Buffer.Enqueue` | CollScope-NS3/src/aodv/model/aodv-rqueue.cc:48-68 | the call takes the specified step; the caller's entry is stamped only when accepted |
| `RequestQueue.Buffer.DropPacketWithDst` | CollScope-NS3/src/aodv/model/aodv-rqueue.cc:70-85 | the live entries for the destination are reported and removed |
| `RequestQueue.Buffer.Dequeue` | CollScope-NS3/src/aodv/model/aodv-rqueue.cc:87-101 | the call takes the specified step; on failure the caller's entry is untouched |
| `RequestQueue.Buffer.Find` | CollScope-NS3/src/aodv/model/aodv-rqueue.cc:103-113 | true exactly when the unpurged queue has an entry for the destination |

## Left out

- Reading and writing files, parsing of lines, argument handling, CSV, HTML and plot output: the models start from parsed sequences.
- `build_step_to_line_map` (`straggler-algorithms/diagnose.py:67-79`): not used by the diagnosis itself.
- Ranking and top-k output of link scores, and the printing of slow nodes: formatting of the tables modelled here.
- Floating-point rounding: the reals are exact, so a comparison that rounding could tip is decided exactly here.
- Routing.Network.TakeDownLink: device take-down and redistribution of queue pairs are not modelled, nor is the default entry that C++ `operator[]` inserts for a link that never existed.
- Routing.Network.CalculateRoute: the pair figures of nodes that become unreachable after a failure are kept from before, as in the source, and nothing is claimed about them.
- PFC, ECN and congestion-control configuration, and the simulator's own objects.
- Clos.Generate: group and host counts are natural numbers; the script would also accept negative ones. Rates and delays are passed through as text there and are parameters of `Clos.SetUp` here.
- Diagnose.LineRanges: only the line numbers, not the printed report; with an empty base trace the last-line index is -1, as in the source. Diagnose.DetectSlowInRange takes a start line of 0 or more.
- WorkerPool.NeverStuck: fairness is not modelled; with `WorkerPool.ExecutionsEnd` and `WorkerPool.NoDeadlock`, any run whose threads keep taking enabled steps finishes. Printing and the writing of result files by the main thread are left out.
- StepDetector.DetectSteps: with a negative warm-up limit the source's index moves backwards, and past the start of the trace, wherever nothing is detected; only runs in which that never happens are modelled.
- eBPF probes, the AODV routing protocol and its tables, and the remaining utilities of `rad_util.py`: not part of this model.
