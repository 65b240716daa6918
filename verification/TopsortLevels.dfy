/** Dependency sorting level by level: an item's level is the length of the longest chain
    of pairs that ends at it. */
module TopsortLevels {
  import opened Common
  import opened Digraph
  import opened Topsort

  /** The levels generated, and the stuck tables when the generator fails. */
  datatype LevelResult<T> =
    | Levels(levels: seq<seq<T>>)
    | LevelError(levels: seq<seq<T>>, numParents: map<T, int>, children: map<T, seq<T>>)

  /** The level holds, once each, the items whose longest chain has exactly `k` pairs. */
  ghost predicate ExactLevel<T(!new)>(pairs: seq<(T, T)>, items: set<T>, level: seq<T>, k: nat) {
    && Distinct(level) && level != []
    && forall x :: x in level <==> x in items && HasChain(pairs, x, k) && !HasChain(pairs, x, k + 1)
  }

  /** The items at which some chain of `k` pairs ends. */
  ghost predicate Deep<T(!new)>(pairs: seq<(T, T)>, items: set<T>, live: set<T>, k: nat) {
    forall x :: x in live <==> x in items && HasChain(pairs, x, k)
  }

  /** Decrement the count of every child. */
  method LowerCounts<T(==, !new)>(kids: seq<T>, before: map<T, int>) returns (numParents: map<T, int>)
    requires forall c :: c in kids ==> c in before
    ensures KnockedDown(before, kids, numParents)
  {
    numParents := before;
    for i := 0 to |kids|
      invariant KnockedDown(before, kids[..i], numParents)
    {
      StillCounted(kids, i);
      numParents := numParents[kids[i] := numParents[kids[i]] - 1];
    }
    assert kids[..|kids|] == kids;
  }

  method WithdrawParent<T(==, !new)>(ghost pairs: seq<(T, T)>, ghost live: set<T>, parent: T, before: map<T, int>,
                                     kidsBefore: map<T, seq<T>>)
      returns (numParents: map<T, int>, children: map<T, seq<T>>)
    requires Tallied(pairs, live, before, kidsBefore) && Closed(pairs, live)
    requires parent in live && before[parent] == 0
    ensures Tallied(pairs, live - {parent}, numParents, children) && Closed(pairs, live - {parent})
    ensures forall x :: x in live && x != parent && before[x] == 0 ==> numParents[x] == 0
  {
    ChildrenCanBeReleased(pairs, live, parent, before, kidsBefore);
    numParents, children := before - {parent}, kidsBefore;
    if parent in children {
      numParents := LowerCounts(children[parent], numParents);
      children := children - {parent};
    }
    assert children == kidsBefore - {parent};
    Released(pairs, live, parent, before, kidsBefore, numParents);
  }

  /** Account for the parents of one level. */
  method WithdrawLevel<T(==, !new)>(ghost pairs: seq<(T, T)>, ghost live: set<T>, level: seq<T>, before: map<T, int>,
                                    kidsBefore: map<T, seq<T>>)
      returns (numParents: map<T, int>, children: map<T, seq<T>>)
    requires Tallied(pairs, live, before, kidsBefore) && Closed(pairs, live) && Distinct(level)
    requires forall i :: 0 <= i < |level| ==> level[i] in live && before[level[i]] == 0
    ensures Tallied(pairs, live - ToSet(level), numParents, children) && Closed(pairs, live - ToSet(level))
  {
    numParents, children := before, kidsBefore;
    ghost var left := live;
    for j := 0 to |level|
      invariant forall x :: x in left <==> x in live && x !in level[..j]
      invariant Tallied(pairs, left, numParents, children) && Closed(pairs, left)
      invariant forall i :: j <= i < |level| ==> level[i] in left && numParents[level[i]] == 0
    {
      numParents, children := WithdrawParent(pairs, left, level[j], numParents, children);
      left := left - {level[j]};
      assert level[..j + 1] == level[..j] + [level[j]];
    }
    assert level[..|level|] == level;
    assert left == live - ToSet(level);
  }

  /** Without a live parent: the longest chain has exactly `k` pairs. */
  lemma {:induction false} LevelIsExact<T(!new)>(pairs: seq<(T, T)>, items: set<T>, live: set<T>, k: nat, x: T)
    requires Elements(pairs) <= items && Deep(pairs, items, live, k) && x in items
    ensures x in live && InDegree(pairs, x, live) == 0 <==> HasChain(pairs, x, k) && !HasChain(pairs, x, k + 1)
    ensures x in live && InDegree(pairs, x, live) > 0 <==> HasChain(pairs, x, k + 1)
  {
    InDegreeZero(pairs, x, live);
    if HasChain(pairs, x, k + 1) {
      ChainsShorten(pairs, x, k);
      var p :| (p, x) in pairs && HasChain(pairs, p, k);
      assert p in Elements(pairs) && p in live;
    }
    if q :| q in pairs && q.1 == x && q.0 in live {
      assert (q.0, x) in pairs && HasChain(pairs, q.0, k);
    }
  }

  lemma {:induction false} NextLevelDeep<T(!new)>(pairs: seq<(T, T)>, items: set<T>, live: set<T>, k: nat,
      level: seq<T>, numParents: map<T, int>, children: map<T, seq<T>>)
    requires Elements(pairs) <= items && Deep(pairs, items, live, k) && Tallied(pairs, live, numParents, children)
    requires forall x :: x in level <==> x in live && numParents[x] == 0
    ensures forall x :: x in level <==> x in items && HasChain(pairs, x, k) && !HasChain(pairs, x, k + 1)
    ensures Deep(pairs, items, live - ToSet(level), k + 1)
  {
    forall x | x in items
      ensures x in level <==> HasChain(pairs, x, k) && !HasChain(pairs, x, k + 1)
      ensures x in live - ToSet(level) <==> HasChain(pairs, x, k + 1)
    {
      LevelIsExact(pairs, items, live, k, x);
    }
  }

  lemma {:induction false} CycleIsDeep<T(!new)>(pairs: seq<(T, T)>, items: set<T>, live: set<T>, k: nat, c: seq<T>)
    requires Elements(pairs) <= items && Deep(pairs, items, live, k) && Cycle(pairs, c)
    ensures c[0] in live
  {
    assert (c[0], c[Next(0, |c|)]) in pairs;
    CycleHasChains(pairs, c, 0, k);
  }

  /** What is left when no item has count zero: the items below a cycle. */
  lemma {:induction false} LevelsEnd<T(!new)>(pairs: seq<(T, T)>, items: set<T>, live: set<T>, k: nat,
                                              numParents: map<T, int>, children: map<T, seq<T>>)
    requires Elements(pairs) <= items && Deep(pairs, items, live, k) && Tallied(pairs, live, numParents, children)
    requires forall x :: x in live ==> numParents[x] != 0
    ensures forall x :: x in live <==> x in items && Unbounded(pairs, x)
    ensures live != {} <==> exists c :: Cycle(pairs, c)
  {
    forall x | x in items ensures x in live <==> Unbounded(pairs, x) {
      if x in live {
        forall m: nat ensures HasChain(pairs, x, m) {
          StuckHasChains(pairs, live, x, m);
        }
      }
      assert Unbounded(pairs, x) ==> HasChain(pairs, x, k);
    }
    if live != {} {
      var x :| x in live;
      var c := StuckHoldsCycle(pairs, live, x);
    }
    forall c | Cycle(pairs, c) ensures live != {} {
      CycleIsDeep(pairs, items, live, k, c);
    }
  }

  ghost predicate AllExact<T(!new)>(pairs: seq<(T, T)>, items: set<T>, levels: seq<seq<T>>) {
    forall k :: 0 <= k < |levels| ==> ExactLevel(pairs, items, levels[k], k)
  }

  lemma {:induction false} NextLevel<T(!new)>(pairs: seq<(T, T)>, items: set<T>, live: set<T>, levels: seq<seq<T>>,
      level: seq<T>, numParents: map<T, int>, children: map<T, seq<T>>)
    requires Elements(pairs) <= items && Deep(pairs, items, live, |levels|) && AllExact(pairs, items, levels)
    requires Tallied(pairs, live, numParents, children)
    requires Distinct(level) && level != [] && forall x :: x in level <==> x in live && numParents[x] == 0
    ensures AllExact(pairs, items, levels + [level])
    ensures Deep(pairs, items, live - ToSet(level), |levels| + 1) && live - ToSet(level) < live
  {
    NextLevelDeep(pairs, items, live, |levels|, level, numParents, children);
    assert level[0] in level;
    assert ExactLevel(pairs, items, level, |levels|);
  }

  /** One round of the generator: the next level, and the tables without it. */
  method EmitLevel<T(==, !new)>(ghost pairs: seq<(T, T)>, ghost items: set<T>, ghost live: set<T>,
                                levels: seq<seq<T>>, level: seq<T>, before: map<T, int>, kidsBefore: map<T, seq<T>>)
      returns (numParents: map<T, int>, children: map<T, seq<T>>, longer: seq<seq<T>>)
    requires Elements(pairs) <= items && Deep(pairs, items, live, |levels|) && AllExact(pairs, items, levels)
    requires Tallied(pairs, live, before, kidsBefore) && Closed(pairs, live)
    requires Distinct(level) && level != [] && forall x :: x in level <==> x in before && before[x] == 0
    ensures longer == levels + [level] && AllExact(pairs, items, longer)
    ensures Deep(pairs, items, live - ToSet(level), |longer|)
    ensures live - ToSet(level) < live
    ensures Tallied(pairs, live - ToSet(level), numParents, children) && Closed(pairs, live - ToSet(level))
  {
    NextLevel(pairs, items, live, levels, level, before, kidsBefore);
    longer := levels + [level];
    numParents, children := WithdrawLevel(pairs, live, level, before, kidsBefore);
  }

  /** An item with bounded chains is in the level of its longest chain. */
  lemma {:induction false} BoundedIsEmitted<T(!new)>(pairs: seq<(T, T)>, items: set<T>, levels: seq<seq<T>>, x: T,
      m: nat)
    requires AllExact(pairs, items, levels) && x in items && m <= |levels| && !HasChain(pairs, x, m)
    ensures exists k :: 0 <= k < |levels| && x in levels[k]
    decreases m
  {
    if HasChain(pairs, x, m - 1) {
      assert ExactLevel(pairs, items, levels[m - 1], m - 1);
    } else {
      BoundedIsEmitted(pairs, items, levels, x, m - 1);
    }
  }

  /** The levels hold exactly the items with a longest chain. */
  ghost predicate EmitsBounded<T(!new)>(pairs: seq<(T, T)>, items: set<T>, levels: seq<seq<T>>) {
    forall x :: (exists k :: 0 <= k < |levels| && x in levels[k]) <==> x in items && !Unbounded(pairs, x)
  }

  lemma {:induction false} EmittedExactly<T(!new)>(pairs: seq<(T, T)>, items: set<T>, levels: seq<seq<T>>, live: set<T>)
    requires AllExact(pairs, items, levels) && Deep(pairs, items, live, |levels|)
    requires forall x :: x in live <==> x in items && Unbounded(pairs, x)
    ensures EmitsBounded(pairs, items, levels)
  {
    forall x ensures (exists k :: 0 <= k < |levels| && x in levels[k]) <==> x in items && !Unbounded(pairs, x) {
      if k :| 0 <= k < |levels| && x in levels[k] {
        assert ExactLevel(pairs, items, levels[k], k) && !HasChain(pairs, x, k + 1);
      }
      if x in items && !Unbounded(pairs, x) {
        assert x !in live;
        BoundedIsEmitted(pairs, items, levels, x, |levels|);
      }
    }
  }

  /** The generator's loop: levels until none is left. */
  method EmitLevels<T(==, !new)>(ghost pairs: seq<(T, T)>, numParentsIn: map<T, int>, childrenIn: map<T, seq<T>>)
      returns (levels: seq<seq<T>>, numParents: map<T, int>, children: map<T, seq<T>>)
    requires Tallied(pairs, numParentsIn.Keys, numParentsIn, childrenIn) && Elements(pairs) <= numParentsIn.Keys
    ensures Deep(pairs, numParentsIn.Keys, numParents.Keys, |levels|) && AllExact(pairs, numParentsIn.Keys, levels)
    ensures Tallied(pairs, numParents.Keys, numParents, children)
    ensures forall x :: x in numParents ==> numParents[x] != 0
  {
    numParents, children, levels := numParentsIn, childrenIn, [];
    ghost var items := numParentsIn.Keys;
    while true
      invariant Deep(pairs, items, numParents.Keys, |levels|) && AllExact(pairs, items, levels)
      invariant Tallied(pairs, numParents.Keys, numParents, children) && Closed(pairs, numParents.Keys)
      decreases numParents.Keys
    {
      var level := KeysAtZero(numParents);
      if level == [] {
        break;
      }
      numParents, children, levels :=
        EmitLevel(pairs, items, numParents.Keys, levels, level, numParents, children);
    }
  }

  /** The level generator on given tables. Items may also occur in no pair at all. */
  method TopsortLevelsCore<T(==, !new)>(ghost pairs: seq<(T, T)>, numParentsIn: map<T, int>, childrenIn: map<T, seq<T>>)
      returns (r: LevelResult<T>)
    requires Tallied(pairs, numParentsIn.Keys, numParentsIn, childrenIn) && Elements(pairs) <= numParentsIn.Keys
    ensures AllExact(pairs, numParentsIn.Keys, r.levels) && EmitsBounded(pairs, numParentsIn.Keys, r.levels)
    ensures r.LevelError? ==> Tallied(pairs, r.numParents.Keys, r.numParents, r.children)
    ensures r.LevelError? ==> forall x :: x in r.numParents <==> x in numParentsIn && Unbounded(pairs, x)
    ensures r.LevelError? <==> exists c :: Cycle(pairs, c)
  {
    var levels, numParents, children := EmitLevels(pairs, numParentsIn, childrenIn);
    LevelsEnd(pairs, numParentsIn.Keys, numParents.Keys, |levels|, numParents, children);
    EmittedExactly(pairs, numParentsIn.Keys, levels, numParents.Keys);
    if numParents.Keys != {} {
      return LevelError(levels, numParents, children);
    }
    return Levels(levels);
  }

  /** Levels of a list of (parent, child) pairs. */
  method TopsortLevels<T(==, !new)>(pairs: seq<(T, T)>) returns (r: LevelResult<T>)
    ensures AllExact(pairs, Elements(pairs), r.levels)
    ensures forall x :: (exists k :: 0 <= k < |r.levels| && x in r.levels[k])
              <==> x in Elements(pairs) && !BelowCycle(pairs, x)
    ensures r.LevelError? <==> exists c :: Cycle(pairs, c)
    ensures r.LevelError? ==> forall x :: x in r.numParents <==> x in Elements(pairs) && BelowCycle(pairs, x)
  {
    var numParents, children := BuildTables(pairs);
    r := TopsortLevelsCore(pairs, numParents, children);
    forall x | x in Elements(pairs)
      ensures Unbounded(pairs, x) <==> BelowCycle(pairs, x)
    {
      UnboundedIffBelow(pairs, x);
    }
  }
}
