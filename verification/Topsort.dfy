/** Dependency sorting: Kahn's algorithm with decreasing parent counts, and the variant
    that emits one dependency level at a time. */
module Topsort {
  import opened Common
  import opened Digraph

  /** The sorted elements, or the state the algorithm got stuck in. */
  datatype SortResult<T> =
    | Sorted(order: seq<T>)
    | CycleError(order: seq<T>, numParents: map<T, int>, children: map<T, seq<T>>)

  // ----- The tables

  /** The tables describe the graph restricted to the live elements; an element without
      children may be missing from `children`. */
  ghost predicate Tallied<T(!new)>(pairs: seq<(T, T)>, live: set<T>, numParents: map<T, int>,
      children: map<T, seq<T>>)
  {
    && numParents.Keys == live
    && (forall x :: x in live ==> numParents[x] == InDegree(pairs, x, live))
    && (forall p :: p in children ==> p in live && children[p] == ChildrenOf(pairs, p))
    && (forall p :: p in live && p !in children ==> ChildrenOf(pairs, p) == [])
  }

  /** Every child of a live element is live. */
  ghost predicate Closed<T>(pairs: seq<(T, T)>, live: set<T>) {
    forall q :: q in pairs && q.0 in live ==> q.1 in live
  }

  /** The counts after reading some of the pairs; `all` is every element of the graph. */
  ghost predicate Counted<T(!new)>(seen: seq<(T, T)>, all: set<T>, numParents: map<T, int>) {
    numParents.Keys == Elements(seen) && forall x :: x in numParents ==> numParents[x] == InDegree(seen, x, all)
  }

  /** The child lists after reading some of the pairs. */
  ghost predicate Listed<T(!new)>(seen: seq<(T, T)>, children: map<T, seq<T>>) {
    && (forall p :: p in children ==> p in Elements(seen) && children[p] == ChildrenOf(seen, p))
    && (forall p {:trigger ChildrenOf(seen, p)} :: p !in children ==> ChildrenOf(seen, p) == [])
  }

  lemma {:induction false} CountedNext<T(!new)>(seen: seq<(T, T)>, q: (T, T), all: set<T>, before: map<T, int>,
      after: map<T, int>)
    requires Counted(seen, all, before) && q.0 in all
    requires after.Keys == before.Keys + {q.0, q.1}
    requires forall x :: x in after ==>
               after[x] == (if x in before then before[x] else 0) + (if x == q.1 then 1 else 0)
    ensures Counted(seen + [q], all, after)
  {
    var now := seen + [q];
    assert now[..|now| - 1] == seen;
    forall x | x in after ensures after[x] == InDegree(now, x, all) {
      if x !in before {
        InDegreeZero(seen, x, all);
      }
    }
  }

  lemma {:induction false} ListedNext<T(!new)>(seen: seq<(T, T)>, q: (T, T), before: map<T, seq<T>>)
    requires Listed(seen, before)
    ensures Listed(seen + [q], before[q.0 := (if q.0 in before then before[q.0] else []) + [q.1]])
  {
    var now := seen + [q];
    assert now[..|now| - 1] == seen;
    assert q in now && forall r :: r in seen ==> r in now;
    assert q.0 in Elements(now) && Elements(seen) <= Elements(now);
    forall p ensures ChildrenOf(now, p) == ChildrenOf(seen, p) + if q.0 == p then [q.1] else [] {
    }
  }

  /** Both elements of a pair get a count, the child one more parent. */
  method CountPair<T(==)>(parent: T, child: T, before: map<T, int>) returns (numParents: map<T, int>)
    ensures numParents.Keys == before.Keys + {parent, child}
    ensures forall x :: x in numParents ==>
              numParents[x] == (if x in before then before[x] else 0) + (if x == child then 1 else 0)
  {
    numParents := before;
    if parent !in numParents {
      numParents := numParents[parent := 0];
    }
    if child !in numParents {
      numParents := numParents[child := 0];
    }
    numParents := numParents[child := numParents[child] + 1];
  }

  /** The tables after the first `i` pairs. */
  ghost predicate TablesUpTo<T(!new)>(pairs: seq<(T, T)>, i: nat, numParents: map<T, int>, children: map<T, seq<T>>)
    requires i <= |pairs|
  {
    Counted(pairs[..i], Elements(pairs), numParents) && Listed(pairs[..i], children)
  }

  lemma TablesNext<T(!new)>(pairs: seq<(T, T)>, i: nat, counts: map<T, int>, lists: map<T, seq<T>>,
                            numParents: map<T, int>)
    requires i < |pairs| && TablesUpTo(pairs, i, counts, lists)
    requires numParents.Keys == counts.Keys + {pairs[i].0, pairs[i].1}
    requires forall x :: x in numParents ==>
               numParents[x] == (if x in counts then counts[x] else 0) + (if x == pairs[i].1 then 1 else 0)
    ensures var (parent, child) := pairs[i];
            TablesUpTo(pairs, i + 1, numParents,
                       lists[parent := (if parent in lists then lists[parent] else []) + [child]])
  {
    assert pairs[i] in pairs;
    CountedNext(pairs[..i], pairs[i], Elements(pairs), counts, numParents);
    ListedNext(pairs[..i], pairs[i], lists);
    assert pairs[..i + 1] == pairs[..i] + [pairs[i]];
  }

  lemma TablesAreTallied<T(!new)>(pairs: seq<(T, T)>, numParents: map<T, int>, children: map<T, seq<T>>)
    requires Counted(pairs, Elements(pairs), numParents) && Listed(pairs, children)
    ensures Tallied(pairs, Elements(pairs), numParents, children)
  {
  }

  /** Parent counts and child lists of all the pairs, duplicates counted each time. */
  method BuildTables<T(==, !new)>(pairs: seq<(T, T)>) returns (numParents: map<T, int>, children: map<T, seq<T>>)
    ensures Tallied(pairs, Elements(pairs), numParents, children)
  {
    numParents, children := map[], map[];
    for i := 0 to |pairs|
      invariant TablesUpTo(pairs, i, numParents, children)
    {
      var (parent, child) := pairs[i];
      ghost var counts, lists := numParents, children;
      numParents := CountPair(parent, child, numParents);
      children := children[parent := (if parent in children then children[parent] else []) + [child]];
      TablesNext(pairs, i, counts, lists, numParents);
    }
    assert pairs[..|pairs|] == pairs;
    TablesAreTallied(pairs, numParents, children);
  }

  // ----- Taking one element out

  /** The children of a live element without live parents are other live elements, and
      each one's count covers all the pairs about to be withdrawn. */
  lemma {:induction false} ChildrenCanBeReleased<T(!new)>(pairs: seq<(T, T)>, live: set<T>, p: T,
      numParents: map<T, int>, children: map<T, seq<T>>)
    requires Tallied(pairs, live, numParents, children) && Closed(pairs, live) && p in live && numParents[p] == 0
    ensures forall x :: x in live ==> multiset(ChildrenOf(pairs, p))[x] <= numParents[x]
    ensures forall c :: c in ChildrenOf(pairs, p) ==> c in live && c != p
  {
    ChildrenAreChildren(pairs, p);
    forall x | x in live ensures multiset(ChildrenOf(pairs, p))[x] <= numParents[x] {
      InDegreeDrops(pairs, x, live, p);
    }
    InDegreeZero(pairs, p, live);
  }

  /** Withdrawing an element and its pairs leaves the tables of the smaller graph. */
  lemma {:induction false} Released<T(!new)>(pairs: seq<(T, T)>, live: set<T>, p: T,
                           before: map<T, int>, children: map<T, seq<T>>, after: map<T, int>)
    requires Tallied(pairs, live, before, children) && Closed(pairs, live) && p in live && before[p] == 0
    requires after.Keys == live - {p}
    requires forall x :: x in after ==> after[x] == before[x] - multiset(ChildrenOf(pairs, p))[x]
    ensures Tallied(pairs, live - {p}, after, children - {p}) && Closed(pairs, live - {p})
  {
    forall x | x in after ensures after[x] == InDegree(pairs, x, live - {p}) {
      InDegreeDrops(pairs, x, live, p);
    }
    InDegreeZero(pairs, p, live);
  }

  /** The keys whose count is zero, in the arbitrary order of a dictionary. */
  method KeysAtZero<T(==, !new)>(numParents: map<T, int>) returns (keys: seq<T>)
    ensures Distinct(keys)
    ensures forall x :: x in keys <==> x in numParents && numParents[x] == 0
  {
    keys := [];
    var rest := numParents.Keys;
    while rest != {}
      invariant rest <= numParents.Keys && Distinct(keys)
      invariant forall x :: x in keys <==> x in numParents.Keys - rest && numParents[x] == 0
      decreases rest
    {
      var x :| x in rest;
      rest := rest - {x};
      if numParents[x] == 0 {
        keys := keys + [x];
      }
    }
  }

  // ----- topsort

  ghost predicate ParentsBefore<T(!new)>(pairs: seq<(T, T)>, order: seq<T>, i: nat)
    requires i < |order|
  {
    forall p :: (p, order[i]) in pairs ==> p in order[..i]
  }

  /** No element twice, and every parent of an element somewhere before it. */
  ghost predicate Topological<T(!new)>(pairs: seq<(T, T)>, order: seq<T>) {
    Distinct(order) && forall i :: 0 <= i < |order| ==> ParentsBefore(pairs, order, i)
  }

  /** The elements whose count went from positive to zero, each once. */
  ghost predicate Freed<T(!new)>(freed: seq<T>, before: map<T, int>, after: map<T, int>)
    requires before.Keys == after.Keys
  {
    Distinct(freed) && forall x :: x in freed <==> x in before && before[x] > 0 && after[x] == 0
  }

  /** Each count is down by the number of times its element is among the children. */
  ghost predicate KnockedDown<T(!new)>(before: map<T, int>, kids: seq<T>, after: map<T, int>) {
    after.Keys == before.Keys && forall x :: x in before ==> after[x] == before[x] - multiset(kids)[x]
  }

  lemma StillCounted<T>(kids: seq<T>, i: nat)
    requires i < |kids|
    ensures multiset(kids[..i + 1]) == multiset(kids[..i]) + multiset{kids[i]} <= multiset(kids)
  {
    assert kids[..i + 1] == kids[..i] + [kids[i]];
    assert kids == kids[..i + 1] + kids[i + 1..];
    assert multiset(kids) == multiset(kids[..i + 1]) + multiset(kids[i + 1..]);
  }

  lemma KnockDownNext<T(!new)>(before: map<T, int>, kids: seq<T>, i: nat, now: map<T, int>)
    requires i < |kids| && kids[i] in before && multiset(kids)[kids[i]] <= before[kids[i]]
    requires KnockedDown(before, kids[..i], now)
    ensures before[kids[i]] >= now[kids[i]] > 0
    ensures KnockedDown(before, kids[..i + 1], now[kids[i] := now[kids[i]] - 1])
  {
    StillCounted(kids, i);
  }

  lemma FreedNext<T(!new)>(freed: seq<T>, before: map<T, int>, now: map<T, int>, child: T)
    requires before.Keys == now.Keys && child in now && before[child] >= now[child] > 0 && Freed(freed, before, now)
    ensures Freed(if now[child] == 1 then freed + [child] else freed, before, now[child := now[child] - 1])
  {
    var after, more := now[child := now[child] - 1], if now[child] == 1 then freed + [child] else freed;
    assert child !in freed;
    assert forall x :: x in more <==> x in freed || (x == child && now[child] == 1);
  }

  lemma AppendedLater<T>(answer: seq<T>, freed: seq<T>, child: T)
    ensures (answer + freed) + [child] == answer + (freed + [child])
  {
  }

  /** One more child is knocked down. */
  method ReleaseChild<T(==, !new)>(ghost kids: seq<T>, ghost i: nat, child: T, ghost start: map<T, int>,
                                   before: map<T, int>, ghost answer: seq<T>, longerBefore: seq<T>,
                                   ghost freedBefore: seq<T>)
      returns (numParents: map<T, int>, longer: seq<T>, ghost freed: seq<T>)
    requires i < |kids| && child == kids[i] && child in start && multiset(kids)[child] <= start[child]
    requires KnockedDown(start, kids[..i], before) && Freed(freedBefore, start, before)
    requires longerBefore == answer + freedBefore
    ensures KnockedDown(start, kids[..i + 1], numParents) && Freed(freed, start, numParents)
    ensures longer == answer + freed
  {
    KnockDownNext(start, kids, i, before);
    FreedNext(freedBefore, start, before, child);
    AppendedLater(answer, freedBefore, child);
    numParents, longer, freed := before[child := before[child] - 1], longerBefore, freedBefore;
    if numParents[child] == 0 {
      longer, freed := longer + [child], freed + [child];
    }
  }

  /** Knock down the count of every child; those that reach zero join the answer. */
  method ReleaseChildren<T(==, !new)>(kids: seq<T>, before: map<T, int>, answer: seq<T>)
      returns (numParents: map<T, int>, longer: seq<T>, ghost freed: seq<T>)
    requires forall c :: c in kids ==> c in before
    requires forall x :: x in before ==> multiset(kids)[x] <= before[x]
    ensures KnockedDown(before, kids, numParents)
    ensures longer == answer + freed && Freed(freed, before, numParents)
  {
    numParents, longer, freed := before, answer, [];
    for i := 0 to |kids|
      invariant KnockedDown(before, kids[..i], numParents)
      invariant longer == answer + freed && Freed(freed, before, numParents)
    {
      numParents, longer, freed := ReleaseChild(kids, i, kids[i], before, numParents, answer, longer, freed);
    }
    assert kids[..|kids|] == kids;
  }

  /** The waiting part of the answer is the live elements at zero. */
  ghost predicate Waiting<T(!new)>(waiting: seq<T>, live: set<T>, numParents: map<T, int>) {
    && Distinct(waiting) && numParents.Keys == live
    && forall x :: x in waiting <==> x in live && numParents[x] == 0
  }

  lemma {:induction false} WaitingAdvances<T(!new)>(head: T, tail: seq<T>, freed: seq<T>, live: set<T>,
                                                   before: map<T, int>, after: map<T, int>)
    requires Waiting([head] + tail, live, before) && after.Keys == live - {head}
    requires forall x :: x in after ==> after[x] <= before[x] && (before[x] == 0 ==> after[x] == 0)
    requires Freed(freed, before - {head}, after)
    requires forall x :: x in live ==> before[x] >= 0
    ensures Waiting(tail + freed, live - {head}, after)
  {
    var was, now := [head] + tail, tail + freed;
    assert forall i :: 0 <= i < |tail| ==> was[i + 1] == tail[i];
    assert forall x :: x in tail ==> x in was;
    forall i | 0 <= i < |tail| ensures tail[i] != head {
      assert was[0] != was[i + 1];
    }
    forall x ensures x in now <==> x in live - {head} && after[x] == 0 {
      assert x in now <==> x in tail || x in freed;
      assert x in was <==> x == head || x in tail;
    }
    forall i, j | 0 <= i < j < |now| ensures now[i] != now[j] {
      if i < |tail| <= j {
        assert now[i] in tail && now[j] in freed;
      }
    }
  }

  lemma SortedExtends<T(!new)>(pairs: seq<(T, T)>, sorted: seq<T>, x: T, live: set<T>)
    requires Topological(pairs, sorted) && live == Elements(pairs) - ToSet(sorted) && ToSet(sorted) <= Elements(pairs)
    requires x in live && InDegree(pairs, x, live) == 0
    ensures Topological(pairs, sorted + [x]) && ToSet(sorted + [x]) == ToSet(sorted) + {x}
  {
    var order := sorted + [x];
    InDegreeZero(pairs, x, live);
    forall i | 0 <= i < |order| ensures ParentsBefore(pairs, order, i) {
      if i < |sorted| {
        assert ParentsBefore(pairs, sorted, i) && order[..i] == sorted[..i];
      } else {
        assert order[..i] == sorted;
        forall p | (p, x) in pairs ensures p in sorted {
          assert p in Elements(pairs);
        }
      }
    }
  }

  /** The state of the sort: a sorted part, a waiting part, and the tables of the rest. */
  ghost predicate Sorting<T(!new)>(pairs: seq<(T, T)>, live: set<T>, sorted: seq<T>, waiting: seq<T>,
                                   numParents: map<T, int>, children: map<T, seq<T>>) {
    && ToSet(sorted) <= Elements(pairs) && live == Elements(pairs) - ToSet(sorted)
    && Tallied(pairs, live, numParents, children) && Closed(pairs, live)
    && Waiting(waiting, live, numParents) && Topological(pairs, sorted)
  }

  /** Delete the element's entries after knocking down its children's counts. */
  method TakeOut<T(==, !new)>(parent: T, ghost kids: seq<T>, before: map<T, int>, kidsBefore: map<T, seq<T>>,
      answer: seq<T>)
      returns (numParents: map<T, int>, children: map<T, seq<T>>, longer: seq<T>, ghost freed: seq<T>)
    requires kids == if parent in kidsBefore then kidsBefore[parent] else []
    requires forall c :: c in kids ==> c in before && c != parent
    requires forall x :: x in before ==> multiset(kids)[x] <= before[x]
    ensures children == kidsBefore - {parent} && numParents.Keys == before.Keys - {parent}
    ensures forall x :: x in numParents ==> numParents[x] == before[x] - multiset(kids)[x]
    ensures longer == answer + freed && Freed(freed, before - {parent}, numParents)
  {
    numParents, children, longer, freed := before - {parent}, kidsBefore - {parent}, answer, [];
    if parent in kidsBefore {
      numParents, longer, freed := ReleaseChildren(kidsBefore[parent], numParents, answer);
    }
  }

  /** Withdraw an element without live parents; freed children join the answer. */
  method Withdraw<T(==, !new)>(ghost pairs: seq<(T, T)>, ghost live: set<T>, parent: T, before: map<T, int>,
                               kidsBefore: map<T, seq<T>>, answer: seq<T>, ghost tail: seq<T>)
      returns (numParents: map<T, int>, children: map<T, seq<T>>, longer: seq<T>, ghost freed: seq<T>)
    requires Tallied(pairs, live, before, kidsBefore) && Closed(pairs, live)
    requires Waiting([parent] + tail, live, before)
    ensures longer == answer + freed
    ensures Tallied(pairs, live - {parent}, numParents, children) && Closed(pairs, live - {parent})
    ensures Waiting(tail + freed, live - {parent}, numParents)
  {
    assert parent in [parent] + tail;
    ChildrenCanBeReleased(pairs, live, parent, before, kidsBefore);
    numParents, children, longer, freed := TakeOut(parent, ChildrenOf(pairs, parent), before, kidsBefore, answer);
    Released(pairs, live, parent, before, kidsBefore, numParents);
    WaitingAdvances(parent, tail, freed, live, before, numParents);
  }

  lemma MoveHead<T>(sorted: seq<T>, head: T, tail: seq<T>, freed: seq<T>)
    ensures (sorted + ([head] + tail)) + freed == (sorted + [head]) + (tail + freed)
  {
  }

  /** One turn of the sorting loop: the first waiting element is withdrawn. */
  method Turn<T(==, !new)>(ghost pairs: seq<(T, T)>, ghost live: set<T>, ghost sorted: seq<T>, ghost waiting: seq<T>,
                           before: map<T, int>, kidsBefore: map<T, seq<T>>, answer: seq<T>, k: nat)
      returns (numParents: map<T, int>, children: map<T, seq<T>>, longer: seq<T>, ghost waitingNow: seq<T>)
    requires Sorting(pairs, live, sorted, waiting, before, kidsBefore)
    requires answer == sorted + waiting && k == |sorted| < |answer|
    ensures answer[k] in live
    ensures Sorting(pairs, live - {answer[k]}, sorted + [answer[k]], waitingNow, numParents, children)
    ensures longer == (sorted + [answer[k]]) + waitingNow
  {
    var parent := answer[k];
    ghost var tail, freed := waiting[1..], [];
    assert waiting == [parent] + tail;
    assert parent in waiting;
    SortedExtends(pairs, sorted, parent, live);
    numParents, children, longer, freed := Withdraw(pairs, live, parent, before, kidsBefore, answer, tail);
    waitingNow := tail + freed;
    MoveHead(sorted, parent, tail, freed);
  }

  lemma {:induction false} CycleLeftOver<T(!new)>(pairs: seq<(T, T)>, order: seq<T>, c: seq<T>, i: nat, at: nat)
    requires Topological(pairs, order) && ClosedWalk(pairs, c) && i < |c| && at < |order|
    ensures c[i] != order[at]
    decreases at
  {
    if c[i] == order[at] {
      var prev := if i > 0 then i - 1 else |c| - 1;
      assert (c[prev], c[Next(prev, |c|)]) in pairs;
      assert ParentsBefore(pairs, order, at) && c[prev] in order[..at];
      var earlier :| 0 <= earlier < at && order[earlier] == c[prev];
      CycleLeftOver(pairs, order, c, prev, earlier);
    }
  }

  /** No element of a closed walk can be sorted. */
  lemma ClosedWalkNotSorted<T(!new)>(pairs: seq<(T, T)>, order: seq<T>, c: seq<T>)
    requires Topological(pairs, order) && ClosedWalk(pairs, c)
    ensures forall x :: x in c ==> x in Elements(pairs) && x !in order
  {
    forall x | x in c ensures x in Elements(pairs) && x !in order {
      var i :| 0 <= i < |c| && c[i] == x;
      assert (c[i], c[Next(i, |c|)]) in pairs;
      forall at | 0 <= at < |order| ensures order[at] != x {
        CycleLeftOver(pairs, order, c, i, at);
      }
    }
  }

  /** Elements that all keep a live parent hold a cycle. */
  lemma {:induction false} StuckHoldsCycle<T(!new)>(pairs: seq<(T, T)>, live: set<T>, x: T) returns (c: seq<T>)
    requires x in live && forall y :: y in live ==> InDegree(pairs, y, live) > 0
    ensures Cycle(pairs, c) && forall i :: 0 <= i < |c| ==> c[i] in live
  {
    forall y {:trigger HasParentIn(pairs, y, live)} | y in live ensures HasParentIn(pairs, y, live) {
      InDegreeZero(pairs, y, live);
      var q :| q in pairs && q.1 == y && q.0 in live;
      assert q == (q.0, y);
    }
    c := ParentsForceCycle(pairs, live, [x]);
  }

  /** The sorting loop. The answer grows while it is read. */
  method Drain<T(==, !new)>(ghost pairs: seq<(T, T)>, ghost liveBefore: set<T>, ghost sortedBefore: seq<T>,
                            ghost waitingBefore: seq<T>, countsBefore: map<T, int>, kidsBefore: map<T, seq<T>>,
                            answerBefore: seq<T>, from: nat)
      returns (numParents: map<T, int>, children: map<T, seq<T>>, answer: seq<T>, ghost live: set<T>)
    requires Sorting(pairs, liveBefore, sortedBefore, waitingBefore, countsBefore, kidsBefore)
    requires answerBefore == sortedBefore + waitingBefore && from == |sortedBefore|
    ensures Sorting(pairs, live, answer, [], numParents, children)
  {
    numParents, children, answer, live := countsBefore, kidsBefore, answerBefore, liveBefore;
    ghost var sorted, waiting := sortedBefore, waitingBefore;
    var k := from;
    while k < |answer|
      invariant k == |sorted| && answer == sorted + waiting
      invariant Sorting(pairs, live, sorted, waiting, numParents, children)
      decreases |live|
    {
      ghost var parent := answer[k];
      numParents, children, answer, waiting := Turn(pairs, live, sorted, waiting, numParents, children, answer, k);
      live, sorted := live - {parent}, sorted + [parent];
      k := k + 1;
    }
    assert waiting == [] && answer == sorted;
  }

  lemma NothingLeftNoCycle<T(!new)>(pairs: seq<(T, T)>, order: seq<T>)
    requires Topological(pairs, order) && Elements(pairs) <= ToSet(order)
    ensures !exists c :: Cycle(pairs, c)
  {
    forall c | Cycle(pairs, c) ensures false {
      assert c[0] in c;
      ClosedWalkNotSorted(pairs, order, c);
    }
  }

  lemma {:induction false} SortEnds<T(!new)>(pairs: seq<(T, T)>, live: set<T>, sorted: seq<T>,
                                             numParents: map<T, int>, children: map<T, seq<T>>)
    requires Sorting(pairs, live, sorted, [], numParents, children)
    ensures live != {} <==> exists c :: Cycle(pairs, c)
    ensures forall x :: x in live ==> numParents[x] > 0
  {
    forall x | x in live ensures numParents[x] > 0 && InDegree(pairs, x, live) > 0 {
      assert x !in [];
    }
    if live != {} {
      var x :| x in live;
      var c := StuckHoldsCycle(pairs, live, x);
    } else {
      forall x | x in Elements(pairs) ensures x in ToSet(sorted) {
        assert x !in live;
      }
      NothingLeftNoCycle(pairs, sorted);
    }
  }

  /** A chain ending at the element number `i` of a topological order has at most `i` pairs. */
  lemma {:induction false} SortedIsBounded<T(!new)>(pairs: seq<(T, T)>, order: seq<T>, i: nat)
    requires Topological(pairs, order) && i < |order|
    ensures !HasChain(pairs, order[i], i + 1)
  {
    if HasChain(pairs, order[i], i + 1) {
      var p :| (p, order[i]) in pairs && HasChain(pairs, p, i);
      assert ParentsBefore(pairs, order, i) && p in order[..i];
      var j :| 0 <= j < i && order[j] == p;
      ChainsShortenTo(pairs, p, i, j + 1);
      SortedIsBounded(pairs, order, j);
    }
  }

  /** What a sort cannot place is exactly what lies on or below a cycle. */
  lemma {:induction false} LeftOverIsBelowCycle<T(!new)>(pairs: seq<(T, T)>, order: seq<T>, left: set<T>, x: T)
    requires Topological(pairs, order) && left == Elements(pairs) - ToSet(order) && x in Elements(pairs)
    requires forall y :: y in left ==> InDegree(pairs, y, left) > 0
    ensures x !in order <==> BelowCycle(pairs, x)
  {
    UnboundedIffBelow(pairs, x);
    if x in order {
      var i :| 0 <= i < |order| && order[i] == x;
      SortedIsBounded(pairs, order, i);
      assert !Unbounded(pairs, x);
    } else {
      forall m: nat ensures HasChain(pairs, x, m) {
        StuckHasChains(pairs, left, x, m);
      }
    }
  }

  /** How a sort ends: a topological order of some elements, which are all of them, or the
      tables of the others, each with a parent left. */
  ghost predicate SortOutcome<T(!new)>(pairs: seq<(T, T)>, r: SortResult<T>) {
    && Topological(pairs, r.order) && ToSet(r.order) <= Elements(pairs)
    && match r
       case Sorted(order) => ToSet(order) == Elements(pairs)
       case CycleError(order, numParents, children) =>
         var left := Elements(pairs) - ToSet(order);
         && left != {} && Tallied(pairs, left, numParents, children)
         && forall x :: x in left ==> numParents[x] > 0
  }

  lemma LeftOverExactly<T(!new)>(pairs: seq<(T, T)>, r: SortResult<T>)
    requires SortOutcome(pairs, r) && r.CycleError?
    ensures forall x :: x in r.numParents <==> x in Elements(pairs) && BelowCycle(pairs, x)
  {
    var left := Elements(pairs) - ToSet(r.order);
    forall x | x in Elements(pairs) ensures x in r.numParents <==> BelowCycle(pairs, x) {
      LeftOverIsBelowCycle(pairs, r.order, left, x);
    }
  }

  method Topsort<T(==, !new)>(pairs: seq<(T, T)>) returns (r: SortResult<T>)
    ensures SortOutcome(pairs, r)
    ensures r.CycleError? <==> exists c :: Cycle(pairs, c)
    ensures r.CycleError? ==> forall x :: x in r.numParents <==> x in Elements(pairs) && BelowCycle(pairs, x)
  {
    var numParents, children := BuildTables(pairs);
    var answer := KeysAtZero(numParents);
    ghost var live := Elements(pairs);
    assert answer == [] + answer;
    numParents, children, answer, live := Drain(pairs, live, [], answer, numParents, children, answer, 0);
    SortEnds(pairs, live, answer, numParents, children);
    if numParents.Keys != {} {
      r := CycleError(answer, numParents, children);
      LeftOverExactly(pairs, r);
      return;
    }
    return Sorted(answer);
  }

  /** The source's comment says that every left-over element has a child. That holds exactly
      when every element on or below a cycle is the parent in some pair. */
  lemma LeftOverHaveChildren<T(!new)>(pairs: seq<(T, T)>, r: SortResult<T>)
    requires SortOutcome(pairs, r) && r.CycleError?
    ensures (forall x :: x in r.numParents ==> ChildrenOf(pairs, x) != [])
       <==> (forall x :: x in Elements(pairs) && BelowCycle(pairs, x) ==> HasChild(pairs, x))
  {
    LeftOverExactly(pairs, r);
    forall x ensures ChildrenOf(pairs, x) != [] <==> HasChild(pairs, x) {
      ChildrenAreChildren(pairs, x);
      assert ChildrenOf(pairs, x) != [] ==> ChildrenOf(pairs, x)[0] in ChildrenOf(pairs, x);
    }
  }

  /** In index terms: every parent comes before its child. */
  lemma ParentsComeFirst<T(!new)>(pairs: seq<(T, T)>, order: seq<T>, i: nat, j: nat)
    requires Topological(pairs, order) && i < |order| && j < |order| && (order[i], order[j]) in pairs
    ensures i < j
  {
    assert ParentsBefore(pairs, order, j);
    var k :| 0 <= k < j && order[..j][k] == order[i];
    assert order[k] == order[i];
  }

  lemma NoMembersEmpty<T>(s: seq<T>)
    ensures (forall x :: x !in s) ==> s == []
  {
    assert s != [] ==> s[0] in s;
  }

  lemma SmallGraph(pairs: seq<(int, int)>)
    requires pairs == [(2, 3), (3, 2), (3, 4)]
    ensures Elements(pairs) == {2, 3, 4} && Closed(pairs, {2, 3, 4}) && ClosedWalk(pairs, [2, 3])
    ensures forall x :: x in {2, 3, 4} ==> InDegree(pairs, x, {2, 3, 4}) > 0
    ensures ChildrenOf(pairs, 4) == []
  {
    var left := {2, 3, 4};
    assert pairs[0] in pairs && pairs[1] in pairs && pairs[2] in pairs;
    assert forall q :: q in pairs ==> q == (2, 3) || q == (3, 2) || q == (3, 4);
    InDegreeZero(pairs, 2, left);
    InDegreeZero(pairs, 3, left);
    InDegreeZero(pairs, 4, left);
    ChildrenAreChildren(pairs, 4);
    NoMembersEmpty(ChildrenOf(pairs, 4));
  }

  lemma ParentSorted<T(!new)>(pairs: seq<(T, T)>, order: seq<T>, p: T, x: T)
    requires Topological(pairs, order) && (p, x) in pairs
    ensures x in order ==> p in order
  {
    if x in order {
      var i :| 0 <= i < |order| && order[i] == x;
      assert ParentsBefore(pairs, order, i);
      var k :| 0 <= k < i && order[..i][k] == p;
      assert order[k] == p;
    }
  }

  lemma NothingPlaced<T(!new)>(pairs: seq<(T, T)>, r: SortResult<T>)
    requires SortOutcome(pairs, r) && r.order == [] && Elements(pairs) != {}
    ensures r.CycleError? && r.numParents.Keys == Elements(pairs)
  {
    assert ToSet(r.order) == {};
  }

  lemma NothingSorted(pairs: seq<(int, int)>, order: seq<int>)
    requires pairs == [(2, 3), (3, 2), (3, 4)] && Topological(pairs, order) && ToSet(order) <= Elements(pairs)
    ensures order == []
  {
    SmallGraph(pairs);
    var c := [2, 3];
    ClosedWalkNotSorted(pairs, order, c);
    assert c[0] in c && c[1] in c && pairs[2] in pairs;
    ParentSorted(pairs, order, 3, 4);
    forall x ensures x !in order {
      assert x in ToSet(order) ==> x in Elements(pairs);
    }
    NoMembersEmpty(order);
  }

  /** So the comment is not right in general: whatever the order of the dictionary, the sort
      of these pairs places nothing and leaves 2, 3 and 4 over, and 4 has no child. (Each of
      them has a left-over parent instead.) */
  lemma LeftOverWithoutChild(r: SortResult<int>)
    requires SortOutcome([(2, 3), (3, 2), (3, 4)], r)
    ensures var pairs, left := [(2, 3), (3, 2), (3, 4)], {2, 3, 4};
            && Elements(pairs) == left && Closed(pairs, left)
            && (forall x :: x in left ==> InDegree(pairs, x, left) > 0)
            && r.CycleError? && r.order == [] && r.numParents.Keys == left
            && 4 in left && ChildrenOf(pairs, 4) == []
  {
    var pairs := [(2, 3), (3, 2), (3, 4)];
    SmallGraph(pairs);
    NothingSorted(pairs, r.order);
    NothingPlaced(pairs, r);
  }
}
