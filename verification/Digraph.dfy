/** Directed graphs given as lists of (parent, child) pairs, duplicates included:
    degrees, chains, closed walks and cycles. */
module Digraph {
  import opened Common

  function Elements<T>(pairs: seq<(T, T)>): set<T> {
    (set p | p in pairs :: p.0) + (set p | p in pairs :: p.1)
  }

  /** How many pairs make a live element a parent of `x`, duplicates counted. */
  ghost function InDegree<T>(pairs: seq<(T, T)>, x: T, live: set<T>): nat {
    if pairs == [] then 0
    else
      var last := pairs[|pairs| - 1];
      InDegree(pairs[..|pairs| - 1], x, live) + if last.1 == x && last.0 in live then 1 else 0
  }

  /** The children of `p` in the order of the pairs, duplicates kept. */
  ghost function ChildrenOf<T>(pairs: seq<(T, T)>, p: T): seq<T> {
    if pairs == [] then []
    else
      var last := pairs[|pairs| - 1];
      ChildrenOf(pairs[..|pairs| - 1], p) + if last.0 == p then [last.1] else []
  }

  lemma {:induction false} InDegreeZero<T>(pairs: seq<(T, T)>, x: T, live: set<T>)
    ensures InDegree(pairs, x, live) == 0 <==> forall p :: p in pairs && p.1 == x ==> p.0 !in live
  {
    if pairs == [] {
    } else {
      var init, last := pairs[..|pairs| - 1], pairs[|pairs| - 1];
      InDegreeZero(init, x, live);
      assert pairs == init + [last];
    }
  }

  /** Taking one parent out lowers a degree by the number of times it names the child. */
  lemma {:induction false} InDegreeDrops<T>(pairs: seq<(T, T)>, x: T, live: set<T>, p: T)
    requires p in live
    ensures InDegree(pairs, x, live) == InDegree(pairs, x, live - {p}) + multiset(ChildrenOf(pairs, p))[x]
  {
    if pairs == [] {
    } else {
      InDegreeDrops(pairs[..|pairs| - 1], x, live, p);
    }
  }

  lemma {:induction false} ChildrenAreChildren<T>(pairs: seq<(T, T)>, p: T)
    ensures forall c :: c in ChildrenOf(pairs, p) <==> (p, c) in pairs
  {
    if pairs == [] {
    } else {
      var init, last := pairs[..|pairs| - 1], pairs[|pairs| - 1];
      ChildrenAreChildren(init, p);
      assert pairs == init + [last];
    }
  }

  // ----- Chains, walks and cycles

  /** Some chain of `m` pairs ends at `x`. */
  ghost predicate HasChain<T(!new)>(pairs: seq<(T, T)>, x: T, m: nat) {
    m == 0 || exists p :: (p, x) in pairs && HasChain(pairs, p, m - 1)
  }

  /** Some chain of `m` pairs leads from `y` to `x`. */
  ghost predicate Leads<T(!new)>(pairs: seq<(T, T)>, y: T, x: T, m: nat) {
    if m == 0 then x == y else exists p :: (p, x) in pairs && Leads(pairs, y, p, m - 1)
  }

  ghost predicate Distinct<T>(s: seq<T>) {
    forall i, j :: 0 <= i < j < |s| ==> s[i] != s[j]
  }

  function Next(i: nat, n: nat): nat
    requires i < n
  {
    if i + 1 < n then i + 1 else 0
  }

  /** Every element is a parent of the next one, and the last of the first. */
  ghost predicate ClosedWalk<T>(pairs: seq<(T, T)>, c: seq<T>) {
    |c| > 0 && forall i :: 0 <= i < |c| ==> (c[i], c[Next(i, |c|)]) in pairs
  }

  /** A closed walk that repeats no element. */
  ghost predicate Cycle<T>(pairs: seq<(T, T)>, c: seq<T>) {
    ClosedWalk(pairs, c) && Distinct(c)
  }

  ghost predicate Walk<T>(pairs: seq<(T, T)>, path: seq<T>) {
    |path| > 0 && forall i {:trigger path[i]} :: 0 <= i < |path| - 1 ==> (path[i], path[i + 1]) in pairs
  }

  lemma {:induction false} DistinctFits<T>(s: seq<T>, all: set<T>)
    requires Distinct(s) && forall i :: 0 <= i < |s| ==> s[i] in all
    ensures |s| <= |all|
    ensures |s| == |all| ==> forall x :: x in all ==> x in s
  {
    if s == [] {
    } else {
      var init, last := s[..|s| - 1], s[|s| - 1];
      forall i | 0 <= i < |init| ensures init[i] in all - {last} {
        assert init[i] == s[i];
      }
      DistinctFits(init, all - {last});
      assert s == init + [last];
    }
  }

  lemma {:induction false} ChainsShorten<T(!new)>(pairs: seq<(T, T)>, x: T, m: nat)
    requires HasChain(pairs, x, m + 1)
    ensures HasChain(pairs, x, m)
  {
    if m == 0 {
    } else {
      var p :| (p, x) in pairs && HasChain(pairs, p, m);
      ChainsShorten(pairs, p, m - 1);
    }
  }

  lemma {:induction false} ChainsShortenTo<T(!new)>(pairs: seq<(T, T)>, x: T, m: nat, k: nat)
    requires HasChain(pairs, x, m) && k <= m
    ensures HasChain(pairs, x, k)
    decreases m
  {
    if k >= m {
    } else {
      ChainsShorten(pairs, x, m - 1);
      ChainsShortenTo(pairs, x, m - 1, k);
    }
  }

  /** Elements that all keep a live parent have chains of every length. */
  lemma {:induction false} StuckHasChains<T(!new)>(pairs: seq<(T, T)>, live: set<T>, x: T, m: nat)
    requires x in live && forall y :: y in live ==> InDegree(pairs, y, live) > 0
    ensures HasChain(pairs, x, m)
    decreases m
  {
    if m == 0 {
    } else {
      InDegreeZero(pairs, x, live);
      var q :| q in pairs && q.1 == x && q.0 in live;
      StuckHasChains(pairs, live, q.0, m - 1);
      assert (q.0, x) in pairs;
    }
  }

  ghost predicate HasParentIn<T>(pairs: seq<(T, T)>, x: T, left: set<T>) {
    exists p :: p in left && (p, x) in pairs
  }

  /** A walk of different elements stays one when a new parent is put in front. */
  lemma WalkExtends<T(!new)>(pairs: seq<(T, T)>, up: T, path: seq<T>)
    requires Walk(pairs, path) && Distinct(path) && (up, path[0]) in pairs && up !in path
    ensures var longer := [up] + path;
            && Walk(pairs, longer) && Distinct(longer) && |longer| == |path| + 1
            && longer[0] == up && longer[|longer| - 1] == path[|path| - 1]
            && forall i :: 0 < i < |longer| ==> longer[i] == path[i - 1]
  {
    var longer := [up] + path;
    forall i {:trigger longer[i]} | 0 <= i < |longer| - 1 ensures (longer[i], longer[i + 1]) in pairs {
      assert i > 0 ==> longer[i] == path[i - 1] && longer[i + 1] == path[i];
    }
  }

  /** Pigeonhole: when every element of a set has a parent in the set, walking up the
      parents from any of them must come back, so the set holds a cycle. */
  lemma {:induction false} ParentsForceCycle<T(!new)>(pairs: seq<(T, T)>, left: set<T>, path: seq<T>)
      returns (c: seq<T>)
    requires forall x {:trigger HasParentIn(pairs, x, left)} :: x in left ==> HasParentIn(pairs, x, left)
    requires Walk(pairs, path) && Distinct(path) && forall i :: 0 <= i < |path| ==> path[i] in left
    ensures Cycle(pairs, c) && forall i :: 0 <= i < |c| ==> c[i] in left
    decreases |left| - |path|
  {
    assert path[0] in left && HasParentIn(pairs, path[0], left);
    var up :| up in left && (up, path[0]) in pairs;
    if up in path {
      var j :| 0 <= j < |path| && path[j] == up;
      c := path[..j + 1];
    } else {
      var longer := [up] + path;
      WalkExtends(pairs, up, path);
      DistinctFits(longer, left);
      c := ParentsForceCycle(pairs, left, longer);
    }
  }

  lemma {:induction false} WalkLeads<T(!new)>(pairs: seq<(T, T)>, path: seq<T>, j: nat, k: nat)
    requires Walk(pairs, path) && j <= k < |path|
    ensures Leads(pairs, path[j], path[k], k - j)
    decreases k
  {
    if j >= k {
    } else {
      WalkLeads(pairs, path, j, k - 1);
      assert (path[k - 1], path[k]) in pairs;
    }
  }

  /** A walk of different elements of the graph. */
  ghost predicate SimpleWalk<T(!new)>(pairs: seq<(T, T)>, path: seq<T>) {
    Walk(pairs, path) && Distinct(path) && ToSet(path) <= Elements(pairs)
  }

  lemma SimpleWalkExtends<T(!new)>(pairs: seq<(T, T)>, up: T, path: seq<T>)
    requires SimpleWalk(pairs, path) && (up, path[0]) in pairs && up !in path
    ensures var longer := [up] + path;
            SimpleWalk(pairs, longer) && longer[0] == up && longer[|longer| - 1] == path[|path| - 1]
  {
    WalkExtends(pairs, up, path);
    assert ToSet([up] + path) == {up} + ToSet(path);
  }

  lemma SimpleWalkFits<T(!new)>(pairs: seq<(T, T)>, path: seq<T>)
    requires SimpleWalk(pairs, path)
    ensures |path| <= |Elements(pairs)|
  {
    assert forall i :: 0 <= i < |path| ==> path[i] in ToSet(path);
    DistinctFits(path, Elements(pairs));
  }

  /** A parent that is on the walk closes a cycle. */
  lemma ParentCloses<T(!new)>(pairs: seq<(T, T)>, path: seq<T>, up: T) returns (c: seq<T>)
    requires SimpleWalk(pairs, path) && (up, path[0]) in pairs && up in path
    ensures Cycle(pairs, c) && c[0] == path[0]
  {
    var j :| 0 <= j < |path| && path[j] == up;
    c := path[..j + 1];
  }

  /** A chain longer than the number of elements passes through a cycle. */
  lemma {:induction false} LongChainMeetsCycle<T(!new)>(pairs: seq<(T, T)>, path: seq<T>, m: nat)
      returns (c: seq<T>, steps: nat)
    requires SimpleWalk(pairs, path) && HasChain(pairs, path[0], m) && m + |path| > |Elements(pairs)|
    ensures Cycle(pairs, c) && Leads(pairs, c[0], path[|path| - 1], steps)
    decreases m
  {
    SimpleWalkFits(pairs, path);
    var up :| (up, path[0]) in pairs && HasChain(pairs, up, m - 1);
    if up in path {
      WalkLeads(pairs, path, 0, |path| - 1);
      c := ParentCloses(pairs, path, up);
      steps := |path| - 1;
    } else {
      SimpleWalkExtends(pairs, up, path);
      c, steps := LongChainMeetsCycle(pairs, [up] + path, m - 1);
    }
  }

  lemma {:induction false} CycleHasChains<T(!new)>(pairs: seq<(T, T)>, c: seq<T>, i: nat, m: nat)
    requires ClosedWalk(pairs, c) && i < |c|
    ensures HasChain(pairs, c[i], m)
    decreases m
  {
    if m == 0 {
    } else {
      var prev := if i > 0 then i - 1 else |c| - 1;
      assert (c[prev], c[Next(prev, |c|)]) in pairs;
      CycleHasChains(pairs, c, prev, m - 1);
    }
  }

  lemma {:induction false} ChainsLead<T(!new)>(pairs: seq<(T, T)>, y: T, x: T, steps: nat, m: nat)
    requires Leads(pairs, y, x, steps) && forall k: nat :: HasChain(pairs, y, k)
    ensures HasChain(pairs, x, m)
    decreases steps
  {
    if steps > 0 && m > 0 {
      var p :| (p, x) in pairs && Leads(pairs, y, p, steps - 1);
      ChainsLead(pairs, y, p, steps - 1, m - 1);
    }
  }

  /** Chains of every length end at `x`. */
  ghost predicate Unbounded<T(!new)>(pairs: seq<(T, T)>, x: T) {
    forall m: nat :: HasChain(pairs, x, m)
  }

  /** `x` lies on or below a cycle. */
  ghost predicate BelowCycle<T(!new)>(pairs: seq<(T, T)>, x: T) {
    exists c: seq<T>, steps: nat :: Cycle(pairs, c) && Leads(pairs, c[0], x, steps)
  }

  lemma {:induction false} UnboundedBelowCycle<T(!new)>(pairs: seq<(T, T)>, x: T)
    requires x in Elements(pairs) && HasChain(pairs, x, |Elements(pairs)|)
    ensures BelowCycle(pairs, x)
  {
    var path := [x];
    var c, steps := LongChainMeetsCycle(pairs, path, |Elements(pairs)|);
    assert Leads(pairs, c[0], x, steps);
  }

  lemma {:induction false} BelowCycleUnbounded<T(!new)>(pairs: seq<(T, T)>, x: T, m: nat)
    requires BelowCycle(pairs, x)
    ensures HasChain(pairs, x, m)
  {
    var c: seq<T>, steps: nat :| Cycle(pairs, c) && Leads(pairs, c[0], x, steps);
    forall k: nat ensures HasChain(pairs, c[0], k) {
      CycleHasChains(pairs, c, 0, k);
    }
    ChainsLead(pairs, c[0], x, steps, m);
  }

  /** Chains ending at an element are unbounded exactly when a cycle leads to it. */
  lemma {:induction false} UnboundedIffBelow<T(!new)>(pairs: seq<(T, T)>, x: T)
    requires x in Elements(pairs)
    ensures Unbounded(pairs, x) <==> BelowCycle(pairs, x)
  {
    if Unbounded(pairs, x) {
      assert HasChain(pairs, x, |Elements(pairs)|);
      UnboundedBelowCycle(pairs, x);
    }
    if BelowCycle(pairs, x) {
      forall m: nat ensures HasChain(pairs, x, m) {
        BelowCycleUnbounded(pairs, x, m);
      }
    }
  }

  /** The element is the parent in some pair. */
  ghost predicate HasChild<T(!new)>(pairs: seq<(T, T)>, x: T) {
    exists c :: (x, c) in pairs
  }

  // ----- The same in plain terms

  /** The positions of the pairs that make a live element a parent of `x`. */
  ghost function ParentPairs<T>(pairs: seq<(T, T)>, x: T, live: set<T>): set<nat> {
    set i: nat | i < |pairs| && pairs[i].1 == x && pairs[i].0 in live
  }

  /** The in-degree is the number of pairs from live elements. */
  lemma {:induction false} InDegreeCounted<T>(pairs: seq<(T, T)>, x: T, live: set<T>)
    ensures InDegree(pairs, x, live) == |ParentPairs(pairs, x, live)|
  {
    if pairs == [] {
    } else {
      var n, init := |pairs| - 1, pairs[..|pairs| - 1];
      InDegreeCounted(init, x, live);
      var before, all := ParentPairs(init, x, live), ParentPairs(pairs, x, live);
      if pairs[n].1 == x && pairs[n].0 in live {
        assert all == before + {n};
      } else {
        assert all == before;
      }
    }
  }

  /** The children are read off these pairs, in this order. */
  ghost predicate ReadOff<T>(pairs: seq<(T, T)>, p: T, children: seq<T>, at: seq<nat>) {
    && |at| == |children|
    && (forall k :: 0 <= k < |at| ==> at[k] < |pairs| && pairs[at[k]] == (p, children[k]))
    && (forall k, l :: 0 <= k < l < |at| ==> at[k] < at[l])
    && (forall i: nat :: i < |pairs| && pairs[i].0 == p ==> i in at)
  }

  /** The children of an element are those of all its pairs, in the order of the pairs. */
  lemma {:induction false} ChildrenReadOff<T>(pairs: seq<(T, T)>, p: T) returns (at: seq<nat>)
    ensures ReadOff(pairs, p, ChildrenOf(pairs, p), at)
  {
    if pairs == [] {
      at := [];
    } else {
      var n, init := |pairs| - 1, pairs[..|pairs| - 1];
      var before := ChildrenReadOff(init, p);
      at := before + if pairs[n].0 == p then [n] else [];
      assert forall k :: 0 <= k < |before| ==> pairs[before[k]] == init[before[k]];
      forall i: nat | i < |pairs| && pairs[i].0 == p ensures i in at {
        if i < n {
          assert init[i] == pairs[i] && i in before;
        } else {
          assert at[|before|] == n;
        }
      }
    }
  }

  lemma {:induction false} WalkOfChain<T(!new)>(pairs: seq<(T, T)>, x: T, m: nat) returns (path: seq<T>)
    requires HasChain(pairs, x, m)
    ensures Walk(pairs, path) && |path| == m + 1 && path[m] == x
  {
    if m == 0 {
      path := [x];
    } else {
      var p :| (p, x) in pairs && HasChain(pairs, p, m - 1);
      var before := WalkOfChain(pairs, p, m - 1);
      path := before + [x];
      forall i {:trigger path[i]} | 0 <= i < |path| - 1 ensures (path[i], path[i + 1]) in pairs {
        assert path[i] == before[i];
        assert i < m - 1 ==> path[i + 1] == before[i + 1];
      }
    }
  }

  lemma {:induction false} WalkIsChain<T(!new)>(pairs: seq<(T, T)>, path: seq<T>)
    requires Walk(pairs, path)
    ensures HasChain(pairs, path[|path| - 1], |path| - 1)
  {
    var m := |path| - 1;
    if m > 0 {
      var init := path[..m];
      assert forall i {:trigger init[i]} :: 0 <= i < |init| ==> init[i] == path[i];
      WalkIsChain(pairs, init);
      assert path[m - 1 + 1] == path[m] && (path[m - 1], path[m]) in pairs;
    }
  }

  /** Some chain of `m` pairs leads to an element exactly when a walk of `m + 1` elements ends at it. */
  lemma {:induction false} ChainIsWalk<T(!new)>(pairs: seq<(T, T)>, x: T, m: nat)
    ensures HasChain(pairs, x, m) <==> exists path :: Walk(pairs, path) && |path| == m + 1 && path[m] == x
  {
    if HasChain(pairs, x, m) {
      var path := WalkOfChain(pairs, x, m);
    }
    if path :| Walk(pairs, path) && |path| == m + 1 && path[m] == x {
      WalkIsChain(pairs, path);
    }
  }
}
