/** Enumeration of all simple cycles of a directed graph, up to rotation, by growing
    simple paths from the roots that no earlier search has met. */
module CycleFinder {
  import opened Common
  import opened Digraph
  import opened Rotations

  ghost predicate Edge<T>(g: map<T, seq<T>>, a: T, b: T) {
    a in g && b in g[a]
  }

  ghost predicate SimplePath<T>(g: map<T, seq<T>>, p: seq<T>) {
    && |p| > 0 && Distinct(p)
    && forall i {:trigger p[i]} :: 0 <= i < |p| - 1 ==> Edge(g, p[i], p[i + 1])
  }

  /** The last element is a parent of the first; no element repeats. */
  ghost predicate SimpleCycle<T>(g: map<T, seq<T>>, c: seq<T>) {
    SimplePath(g, c) && Edge(g, c[|c| - 1], c[0])
  }

  function Nodes<T>(g: map<T, seq<T>>): set<T> {
    g.Keys + set a, b | a in g && b in g[a] :: b
  }

  function IndexOf<T(==)>(p: seq<T>, x: T): (i: nat)
    requires x in p
    ensures i < |p| && p[i] == x && x !in p[..i]
  {
    if p[0] == x then 0
    else
      assert p == [p[0]] + p[1..];
      var j := IndexOf(p[1..], x);
      assert p[..j + 1] == [p[0]] + p[1..][..j];
      j + 1
  }

  lemma RotatedEdge<T>(g: map<T, seq<T>>, c: seq<T>, k: nat, i: nat)
    requires SimpleCycle(g, c) && k < |c| && i < |c| - 1
    ensures |Rotate(c, k)| == |c| && Edge(g, Rotate(c, k)[i], Rotate(c, k)[i + 1])
  {
    var r := Rotate(c, k);
    var j := if i < |c| - k then k + i else i - (|c| - k);
    assert r[i] == c[j];
    if j == |c| - 1 {
      assert r[i + 1] == c[0];
    } else {
      assert r[i + 1] == c[j + 1];
    }
  }

  lemma RotatedCycle<T>(g: map<T, seq<T>>, c: seq<T>, k: nat)
    requires SimpleCycle(g, c) && k < |c|
    ensures SimpleCycle(g, Rotate(c, k)) && Rotate(c, k)[0] == c[k]
  {
    var r := Rotate(c, k);
    forall i {:trigger r[i]} | 0 <= i < |r| - 1 ensures Edge(g, r[i], r[i + 1]) {
      RotatedEdge(g, c, k, i);
    }
    if k > 0 {
      assert r[|r| - 1] == c[k - 1];
    }
  }

  lemma TailIsPath<T>(g: map<T, seq<T>>, p: seq<T>, i: nat)
    requires SimplePath(g, p) && i < |p|
    ensures SimplePath(g, p[i..])
  {
    var c := p[i..];
    forall j {:trigger c[j]} | 0 <= j < |c| - 1 ensures Edge(g, c[j], c[j + 1]) {
      assert c[j] == p[i + j] && c[j + 1] == p[i + j + 1];
    }
  }

  /** A path whose last element is a parent of an earlier one ends in a cycle. */
  lemma TailIsCycle<T>(g: map<T, seq<T>>, p: seq<T>, child: T)
    requires SimplePath(g, p) && Edge(g, p[|p| - 1], child) && child in p
    ensures SimpleCycle(g, p[IndexOf(p, child)..])
  {
    var i := IndexOf(p, child);
    var c := p[i..];
    TailIsPath(g, p, i);
    assert c[|c| - 1] == p[|p| - 1] && c[0] == child;
  }

  // ----- What has been found

  ghost predicate Found<T>(cycles: seq<seq<T>>, c: seq<T>) {
    exists i :: 0 <= i < |cycles| && IsRotation(cycles[i], c)
  }

  /** Every cycle the path closes has been found. */
  ghost predicate Explored<T(!new)>(g: map<T, seq<T>>, cycles: seq<seq<T>>, p: seq<T>)
    requires |p| > 0
  {
    forall child :: Edge(g, p[|p| - 1], child) && child in p ==> Found(cycles, p[IndexOf(p, child)..])
  }

  /** Every cycle through `v` has been found. */
  ghost predicate Covered<T(!new)>(g: map<T, seq<T>>, cycles: seq<seq<T>>, v: T) {
    forall c :: SimpleCycle(g, c) && v in c ==> Found(cycles, c)
  }

  lemma DistinctConcat<T>(a: seq<T>, b: seq<T>)
    requires Distinct(a) && Distinct(b) && forall x :: x in a ==> x !in b
    ensures Distinct(a + b)
  {
    var c := a + b;
    forall i, j | 0 <= i < j < |c| ensures c[i] != c[j] {
      if i < |a| <= j {
        assert c[i] in a && c[j] in b;
      }
    }
  }

  lemma IndexInDistinct<T>(p: seq<T>, at: nat)
    requires Distinct(p) && at < |p|
    ensures IndexOf(p, p[at]) == at
  {
  }

  lemma LassoWalks<T>(g: map<T, seq<T>>, q: seq<T>, at: nat, r: seq<T>)
    requires SimplePath(g, q) && SimplePath(g, r) && at < |q| && r[0] == q[at]
    ensures var full := q[..at] + r;
            forall i {:trigger full[i]} :: 0 <= i < |full| - 1 ==> Edge(g, full[i], full[i + 1])
  {
    var full := q[..at] + r;
    forall i {:trigger full[i]} | 0 <= i < |full| - 1 ensures Edge(g, full[i], full[i + 1]) {
      if i + 1 <= at {
        assert full[i] == q[i] && full[i + 1] == q[i + 1];
      } else {
        assert full[i] == r[i - at] && full[i + 1] == r[i - at + 1];
      }
    }
  }

  lemma {:induction false} LassoIsSimple<T(!new)>(g: map<T, seq<T>>, q: seq<T>, at: nat, c: seq<T>, k: nat)
    requires SimplePath(g, q) && at < |q| && k < |c| && c[k] == q[at]
    requires forall i :: 0 <= i < at ==> q[i] !in c
    requires SimpleCycle(g, Rotate(c, k))
    ensures var full := q[..at] + Rotate(c, k);
            SimplePath(g, full) && full[0] == q[0] && Edge(g, full[|full| - 1], c[k])
            && c[k] in full && IndexOf(full, c[k]) == at
  {
    var stem, r := q[..at], Rotate(c, k);
    var full := stem + r;
    forall x | x in stem ensures x !in r {
      assert x in r ==> x in c;
    }
    DistinctConcat(stem, r);
    LassoWalks(g, q, at, r);
    assert full[at] == c[k] && full[|full| - 1] == r[|r| - 1];
    IndexInDistinct(full, at);
  }

  /** Cut the path from the root at the first element of the cycle and go once around. */
  lemma {:induction false} CycleOnPath<T(!new)>(g: map<T, seq<T>>, root: T, q: seq<T>, c: seq<T>)
      returns (full: seq<T>, at: nat, k: nat)
    requires SimplePath(g, q) && q[0] == root && SimpleCycle(g, c) && q[|q| - 1] in c
    ensures k < |c| && at <= |q| && full == q[..at] + Rotate(c, k)
    ensures SimplePath(g, full) && full[0] == root
    ensures Edge(g, full[|full| - 1], c[k]) && c[k] in full && IndexOf(full, c[k]) == at
  {
    at := 0;
    while q[at] !in c
      invariant at < |q| && forall i :: 0 <= i < at ==> q[i] !in c
      decreases |q| - at
    {
      at := at + 1;
    }
    k :| 0 <= k < |c| && c[k] == q[at];
    RotatedCycle(g, c, k);
    var r := Rotate(c, k);
    full := q[..at] + r;
    LassoIsSimple(g, q, at, c, k);
  }

  /** When every simple path from the root is explored, every cycle the root can reach
      has been found. */
  lemma {:induction false} RootCovers<T(!new)>(g: map<T, seq<T>>, cycles: seq<seq<T>>, root: T, q: seq<T>)
    requires forall p :: SimplePath(g, p) && p[0] == root ==> Explored(g, cycles, p)
    requires SimplePath(g, q) && q[0] == root
    ensures Covered(g, cycles, q[|q| - 1])
  {
    forall c | SimpleCycle(g, c) && q[|q| - 1] in c ensures Found(cycles, c) {
      var full, at, k := CycleOnPath(g, root, q, c);
      assert Explored(g, cycles, full);
      assert full[at..] == Rotate(c, k);
      var i :| 0 <= i < |cycles| && IsRotation(cycles[i], Rotate(c, k));
      assert IsRotation(c, Rotate(c, k));
      RotationSymmetric(c, Rotate(c, k));
      RotationTransitive(cycles[i], Rotate(c, k), c);
    }
  }

  // ----- How much searching is left

  /** The number of simple paths that start with this one: how often the search will pop. */
  ghost function Work<T>(g: map<T, seq<T>>, p: seq<T>): nat
    decreases |Nodes(g) - ToSet(p)|, 1, 0
  {
    1 + if p == [] || p[|p| - 1] !in g then 0 else WorkBelow(g, p, g[p[|p| - 1]])
  }

  lemma FewerNodesLeft<T>(g: map<T, seq<T>>, p: seq<T>, kid: T)
    requires kid !in p && kid in Nodes(g)
    ensures |Nodes(g) - ToSet(p + [kid])| < |Nodes(g) - ToSet(p)|
  {
    assert Nodes(g) - ToSet(p + [kid]) == Nodes(g) - ToSet(p) - {kid};
  }

  ghost function WorkBelow<T>(g: map<T, seq<T>>, p: seq<T>, kids: seq<T>): nat
    decreases |Nodes(g) - ToSet(p)|, 0, |kids|
  {
    if kids == [] then 0
    else
      var kid := kids[|kids| - 1];
      WorkBelow(g, p, kids[..|kids| - 1])
        + if kid in p || kid !in Nodes(g) then 0 else
            FewerNodesLeft(g, p, kid);
            Work(g, p + [kid])
  }

  ghost function TotalWork<T>(g: map<T, seq<T>>, paths: seq<seq<T>>): nat {
    if paths == [] then 0 else TotalWork(g, paths[..|paths| - 1]) + Work(g, paths[|paths| - 1])
  }

  lemma WorkBelowNext<T>(g: map<T, seq<T>>, p: seq<T>, kids: seq<T>, i: nat)
    requires i < |kids| && kids[i] in Nodes(g)
    ensures WorkBelow(g, p, kids[..i + 1])
         == WorkBelow(g, p, kids[..i]) + if kids[i] in p then 0 else Work(g, p + [kids[i]])
  {
    assert kids[..i + 1][..i] == kids[..i];
  }

  // ----- The search

  /** Genuine simple cycles, no two of them rotations of each other. */
  ghost predicate ProperCycles<T>(g: map<T, seq<T>>, cycles: seq<seq<T>>) {
    && (forall i :: 0 <= i < |cycles| ==> SimpleCycle(g, cycles[i]))
    && forall i, j :: 0 <= i < j < |cycles| ==> !IsRotation(cycles[i], cycles[j])
  }

  ghost predicate RootedPaths<T>(g: map<T, seq<T>>, root: T, paths: seq<seq<T>>) {
    forall i :: 0 <= i < |paths| ==> SimplePath(g, paths[i]) && paths[i][0] == root
  }

  ghost predicate HasPrefixIn<T>(paths: seq<seq<T>>, q: seq<T>) {
    exists i :: 0 <= i < |paths| && paths[i] <= q
  }

  /** Every simple path from the root is explored or extends one on the stack. */
  ghost predicate Frontier<T(!new)>(g: map<T, seq<T>>, root: T, paths: seq<seq<T>>, cycles: seq<seq<T>>) {
    forall q {:trigger SimplePath(g, q)} :: SimplePath(g, q) && q[0] == root ==>
      Explored(g, cycles, q) || HasPrefixIn(paths, q)
  }

  ghost predicate ReachedFrom<T(!new)>(g: map<T, seq<T>>, root: T, v: T) {
    exists q :: SimplePath(g, q) && q[0] == root && q[|q| - 1] == v
  }

  /** Yield the cycle unless a rotation of it was yielded before. */
  method AddCycle<T(==)>(ghost g: map<T, seq<T>>, cycles: seq<seq<T>>, cycle: seq<T>) returns (more: seq<seq<T>>)
    requires ProperCycles(g, cycles) && SimpleCycle(g, cycle)
    ensures ProperCycles(g, more) && cycles <= more && Found(more, cycle)
  {
    for i := 0 to |cycles|
      invariant forall j :: 0 <= j < i ==> !IsRotation(cycles[j], cycle)
    {
      var dup := IsRotated(cycles[i], cycle);
      if dup.value {
        return cycles;
      }
    }
    more := cycles + [cycle];
    assert cycle == Rotate(cycle, 0);
    assert IsRotation(more[|cycles|], cycle);
  }

  /** One child of the last element: it closes a cycle or extends the path. */
  method ExpandChild<T(==, !new)>(ghost g: map<T, seq<T>>, ghost root: T, path: seq<T>, child: T,
                                  pathsBefore: seq<seq<T>>, cyclesBefore: seq<seq<T>>, visitedBefore: set<T>)
      returns (paths: seq<seq<T>>, cycles: seq<seq<T>>, visited: set<T>)
    requires SimplePath(g, path) && path[0] == root && Edge(g, path[|path| - 1], child)
    requires RootedPaths(g, root, pathsBefore) && ProperCycles(g, cyclesBefore)
    ensures pathsBefore <= paths && RootedPaths(g, root, paths)
    ensures cyclesBefore <= cycles && ProperCycles(g, cycles)
    ensures child in path ==> Found(cycles, path[IndexOf(path, child)..])
    ensures child !in path ==> path + [child] in paths
    ensures forall v :: v in visited ==> v in visitedBefore || ReachedFrom(g, root, v)
    ensures TotalWork(g, paths) == TotalWork(g, pathsBefore) + if child in path then 0 else Work(g, path + [child])
  {
    paths, cycles, visited := pathsBefore, cyclesBefore, visitedBefore;
    if child in path {
      TailIsCycle(g, path, child);
      cycles := AddCycle(g, cycles, path[IndexOf(path, child)..]);
    } else {
      assert (path + [child])[|path|] == child;
      assert ReachedFrom(g, root, child);
      paths := paths + [path + [child]];
      assert paths[|paths| - 1] == path + [child];
      visited := visited + {child};
    }
  }

  /** The first children of a path have been dealt with. */
  ghost predicate Expanded<T(!new)>(path: seq<T>, kids: seq<T>, paths: seq<seq<T>>, cycles: seq<seq<T>>) {
    && (forall c :: c in kids && c in path ==> Found(cycles, path[IndexOf(path, c)..]))
    && (forall c :: c in kids && c !in path ==> path + [c] in paths)
  }

  lemma ExpandedNext<T(!new)>(path: seq<T>, kids: seq<T>, child: T, paths: seq<seq<T>>, cycles: seq<seq<T>>,
                              paths': seq<seq<T>>, cycles': seq<seq<T>>)
    requires Expanded(path, kids, paths, cycles) && paths <= paths' && cycles <= cycles'
    requires child in path ==> Found(cycles', path[IndexOf(path, child)..])
    requires child !in path ==> path + [child] in paths'
    ensures Expanded(path, kids + [child], paths', cycles')
  {
    forall c | c in kids + [child] && c !in path ensures path + [c] in paths' {
      if c in kids {
        var i :| 0 <= i < |paths| && paths[i] == path + [c];
        assert paths'[i] == path + [c];
      }
    }
  }

  /** Some children of the popped path have been dealt with, and their share of the work stays to be done. */
  ghost predicate DealtWith<T(!new)>(g: map<T, seq<T>>, path: seq<T>, kids: seq<T>, base: seq<seq<T>>,
                                     paths: seq<seq<T>>, cycles: seq<seq<T>>) {
    Expanded(path, kids, paths, cycles) && TotalWork(g, paths) == TotalWork(g, base) + WorkBelow(g, path, kids)
  }

  /** The stack and the cycles once the first children of the popped path are dealt with. */
  ghost predicate Progress<T(!new)>(g: map<T, seq<T>>, root: T, path: seq<T>, kids: seq<T>, base: seq<seq<T>>,
                                    cyclesBefore: seq<seq<T>>, paths: seq<seq<T>>, cycles: seq<seq<T>>) {
    && base <= paths && RootedPaths(g, root, paths)
    && cyclesBefore <= cycles && ProperCycles(g, cycles)
    && DealtWith(g, path, kids, base, paths, cycles)
  }

  lemma ProgressNext<T(!new)>(g: map<T, seq<T>>, path: seq<T>, children: seq<T>, i: nat, base: seq<seq<T>>,
                              paths: seq<seq<T>>, cycles: seq<seq<T>>, paths': seq<seq<T>>, cycles': seq<seq<T>>)
    requires i < |children| && children[i] in Nodes(g) && paths <= paths' && cycles <= cycles'
    requires DealtWith(g, path, children[..i], base, paths, cycles)
    requires children[i] in path ==> Found(cycles', path[IndexOf(path, children[i])..])
    requires children[i] !in path ==> path + [children[i]] in paths'
    requires TotalWork(g, paths') ==
        TotalWork(g, paths) + if children[i] in path then 0 else Work(g, path + [children[i]])
    ensures DealtWith(g, path, children[..i + 1], base, paths', cycles')
  {
    WorkBelowNext(g, path, children, i);
    ExpandedNext(path, children[..i], children[i], paths, cycles, paths', cycles');
    assert children[..i + 1] == children[..i] + [children[i]];
  }

  method ExpandChildren<T(==, !new)>(ghost g: map<T, seq<T>>, ghost root: T, path: seq<T>, children: seq<T>,
                                     base: seq<seq<T>>, cyclesBefore: seq<seq<T>>, visitedBefore: set<T>)
      returns (paths: seq<seq<T>>, cycles: seq<seq<T>>, visited: set<T>)
    requires SimplePath(g, path) && path[0] == root && RootedPaths(g, root, base) && ProperCycles(g, cyclesBefore)
    requires forall i :: 0 <= i < |children| ==> Edge(g, path[|path| - 1], children[i])
    ensures Progress(g, root, path, children, base, cyclesBefore, paths, cycles)
    ensures forall v :: v in visited ==> v in visitedBefore || ReachedFrom(g, root, v)
  {
    paths, cycles, visited := base, cyclesBefore, visitedBefore;
    for i := 0 to |children|
      invariant Progress(g, root, path, children[..i], base, cyclesBefore, paths, cycles)
      invariant forall v :: v in visited ==> v in visitedBefore || ReachedFrom(g, root, v)
    {
      ghost var pathsWere, cyclesWere := paths, cycles;
      paths, cycles, visited := ExpandChild(g, root, path, children[i], paths, cycles, visited);
      ProgressNext(g, path, children, i, base, pathsWere, cyclesWere, paths, cycles);
    }
    assert children[..|children|] == children;
  }

  /** Pop one path: record the cycles it closes, push its extensions. */
  method Expand<T(==, !new)>(g: map<T, seq<T>>, ghost root: T, path: seq<T>, base: seq<seq<T>>,
                             cyclesBefore: seq<seq<T>>, visitedBefore: set<T>)
      returns (paths: seq<seq<T>>, cycles: seq<seq<T>>, visited: set<T>)
    requires SimplePath(g, path) && path[0] == root && RootedPaths(g, root, base) && ProperCycles(g, cyclesBefore)
    ensures base <= paths && RootedPaths(g, root, paths) && cyclesBefore <= cycles && ProperCycles(g, cycles)
    ensures Explored(g, cycles, path)
    ensures forall child :: Edge(g, path[|path| - 1], child) && child !in path ==> path + [child] in paths
    ensures forall v :: v in visited ==> v in visitedBefore || ReachedFrom(g, root, v)
    ensures TotalWork(g, paths) + 1 == TotalWork(g, base) + Work(g, path)
  {
    var parent := path[|path| - 1];
    if parent !in g {
      return base, cyclesBefore, visitedBefore;
    }
    paths, cycles, visited := ExpandChildren(g, root, path, g[parent], base, cyclesBefore, visitedBefore);
  }

  lemma ExploredGrows<T(!new)>(g: map<T, seq<T>>, cycles: seq<seq<T>>, more: seq<seq<T>>, p: seq<T>)
    requires |p| > 0 && cycles <= more && Explored(g, cycles, p)
    ensures Explored(g, more, p)
  {
  }

  lemma CoveredGrows<T(!new)>(g: map<T, seq<T>>, cycles: seq<seq<T>>, more: seq<seq<T>>, v: T)
    requires cycles <= more && Covered(g, cycles, v)
    ensures Covered(g, more, v)
  {
  }

  lemma {:induction false} PrefixAdvances<T(!new)>(g: map<T, seq<T>>, base: seq<seq<T>>, path: seq<T>,
      paths: seq<seq<T>>, q: seq<T>)
    requires SimplePath(g, path) && SimplePath(g, q) && base <= paths && HasPrefixIn(base + [path], q)
    requires forall child :: Edge(g, path[|path| - 1], child) && child !in path ==> path + [child] in paths
    ensures q == path || HasPrefixIn(paths, q)
  {
    var i :| 0 <= i < |base + [path]| && (base + [path])[i] <= q;
    if i < |base| {
      assert paths[i] <= q;
    } else if |q| > |path| {
      var child := q[|path|];
      assert q[|path| - 1] == path[|path| - 1];
      assert Edge(g, q[|path| - 1], q[|path|]);
      assert child !in path by {
        assert forall j :: 0 <= j < |path| ==> path[j] == q[j] != child;
      }
      var k :| 0 <= k < |paths| && paths[k] == path + [child];
      assert paths[k] <= q;
    }
  }

  lemma {:induction false} FrontierAdvances<T(!new)>(g: map<T, seq<T>>, root: T, base: seq<seq<T>>, path: seq<T>,
                                   paths: seq<seq<T>>, cycles: seq<seq<T>>, more: seq<seq<T>>)
    requires Frontier(g, root, base + [path], cycles) && SimplePath(g, path) && base <= paths && cycles <= more
    requires Explored(g, more, path)
    requires forall child :: Edge(g, path[|path| - 1], child) && child !in path ==> path + [child] in paths
    ensures Frontier(g, root, paths, more)
  {
    forall q {:trigger SimplePath(g, q)} | SimplePath(g, q) && q[0] == root
      ensures Explored(g, more, q) || HasPrefixIn(paths, q)
    {
      if Explored(g, cycles, q) {
        ExploredGrows(g, cycles, more, q);
      } else {
        PrefixAdvances(g, base, path, paths, q);
        assert q == path ==> Explored(g, more, q);
      }
    }
  }

  lemma RootOnStack<T(!new)>(g: map<T, seq<T>>, root: T, cycles: seq<seq<T>>)
    ensures RootedPaths(g, root, [[root]]) && Frontier(g, root, [[root]], cycles)
  {
    forall q {:trigger SimplePath(g, q)} | SimplePath(g, q) && q[0] == root ensures HasPrefixIn([[root]], q) {
      assert [[root]][0] <= q;
    }
  }

  /** All simple paths from one root, depth first from a stack. */
  method SearchFrom<T(==, !new)>(g: map<T, seq<T>>, root: T, cyclesBefore: seq<seq<T>>, visitedBefore: set<T>)
      returns (cycles: seq<seq<T>>, visited: set<T>)
    requires ProperCycles(g, cyclesBefore)
    ensures cyclesBefore <= cycles && ProperCycles(g, cycles)
    ensures Frontier(g, root, [], cycles)
    ensures forall v :: v in visited ==> v in visitedBefore || ReachedFrom(g, root, v)
  {
    cycles, visited := cyclesBefore, visitedBefore;
    var paths := [[root]];
    RootOnStack(g, root, cycles);
    while paths != []
      invariant RootedPaths(g, root, paths) && cyclesBefore <= cycles && ProperCycles(g, cycles)
      invariant Frontier(g, root, paths, cycles)
      invariant forall v :: v in visited ==> v in visitedBefore || ReachedFrom(g, root, v)
      decreases TotalWork(g, paths)
    {
      var path, base := paths[|paths| - 1], paths[..|paths| - 1];
      ghost var was := cycles;
      assert paths == base + [path];
      paths, cycles, visited := Expand(g, root, path, base, cycles, visited);
      FrontierAdvances(g, root, base, path, paths, was, cycles);
    }
  }

  lemma {:induction false} SearchCovers<T(!new)>(g: map<T, seq<T>>, root: T, cycles: seq<seq<T>>, v: T)
    requires Frontier(g, root, [], cycles) && ReachedFrom(g, root, v)
    ensures Covered(g, cycles, v)
  {
    forall p | SimplePath(g, p) && p[0] == root ensures Explored(g, cycles, p) {
      assert !HasPrefixIn([], p);
    }
    var q :| SimplePath(g, q) && q[0] == root && q[|q| - 1] == v;
    RootCovers(g, cycles, root, q);
  }

  /** All the cycles: each a genuine simple cycle, no two rotations of each other, and
      every simple cycle of the graph a rotation of one of them. */
  method FindCycles<T(==, !new)>(g: map<T, seq<T>>) returns (cycles: seq<seq<T>>)
    ensures ProperCycles(g, cycles)
    ensures forall c :: SimpleCycle(g, c) ==> Found(cycles, c)
  {
    cycles := [];
    var visited: set<T> := {};
    var rest := g.Keys;
    while rest != {}
      invariant rest <= g.Keys && ProperCycles(g, cycles)
      invariant forall v :: v in visited || v in g.Keys - rest ==> Covered(g, cycles, v)
      decreases rest
    {
      var parent :| parent in rest;
      rest := rest - {parent};
      if parent !in visited {
        ghost var was, seen := cycles, visited;
        cycles, visited := SearchFrom(g, parent, cycles, visited);
        assert ReachedFrom(g, parent, parent) by {
          assert SimplePath(g, [parent]) && [parent][0] == parent;
        }
        forall v | v in visited || v in g.Keys - rest ensures Covered(g, cycles, v) {
          if ReachedFrom(g, parent, v) {
            SearchCovers(g, parent, cycles, v);
          } else {
            CoveredGrows(g, was, cycles, v);
          }
        }
      }
    }
    forall c | SimpleCycle(g, c) ensures Found(cycles, c) {
      assert c[0] in g && c[0] in c && Covered(g, cycles, c[0]);
    }
  }
}
