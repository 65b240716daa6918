/** The route-request buffer of a node: bounded, expiring, free of duplicates. Entries leave
    it by being dequeued or by being reported to their error callback. */
module RequestQueue {
  /** A buffered packet: its number, its destination and the instant it expires. */
  datatype Entry = Entry(uid: nat, dst: nat, expire: int)

  predicate Expired(e: Entry, now: int) { e.expire - now < 0 }
  predicate SameKey(a: Entry, b: Entry) { a.uid == b.uid && a.dst == b.dst }

  /** What a queue keeps: the live entries, or those for another destination; and what it drops. */
  datatype Filter = Alive(now: int) | Outdated(now: int) | For(dst: nat) | NotFor(dst: nat) {
    predicate Holds(e: Entry) {
      match this
      case Alive(now) => !Expired(e, now)
      case Outdated(now) => Expired(e, now)
      case For(dst) => e.dst == dst
      case NotFor(dst) => e.dst != dst
    }

    function Negation(): Filter {
      match this
      case Alive(now) => Outdated(now)
      case Outdated(now) => Alive(now)
      case For(dst) => NotFor(dst)
      case NotFor(dst) => For(dst)
    }
  }

  ghost function Keep(q: seq<Entry>, f: Filter): seq<Entry> {
    if q == [] then []
    else Keep(q[..|q| - 1], f) + if f.Holds(q[|q| - 1]) then [q[|q| - 1]] else []
  }

  ghost predicate DistinctKeys(q: seq<Entry>) {
    forall i, j {:trigger SameKey(q[i], q[j])} :: 0 <= i < j < |q| ==> !SameKey(q[i], q[j])
  }

  predicate NoLater(a: Entry, b: Entry) { a.expire <= b.expire }

  ghost predicate SortedExpiry(q: seq<Entry>) {
    forall i, j {:trigger NoLater(q[i], q[j])} :: 0 <= i < j < |q| ==> NoLater(q[i], q[j])
  }

  ghost predicate HasKey(q: seq<Entry>, e: Entry) {
    exists i {:trigger SameKey(q[i], e)} :: 0 <= i < |q| && SameKey(q[i], e)
  }

  // ----- Parts of a queue, taken out in order

  ghost predicate Subsequence(part: seq<Entry>, q: seq<Entry>) {
    if part == [] then true
    else if q == [] then false
    else
      || (part[|part| - 1] == q[|q| - 1] && Subsequence(part[..|part| - 1], q[..|q| - 1]))
      || Subsequence(part, q[..|q| - 1])
  }

  lemma {:induction false} SubsequenceMembers(part: seq<Entry>, q: seq<Entry>)
    requires Subsequence(part, q)
    ensures |part| <= |q| && forall e :: e in part ==> e in q
    decreases |q|
  {
    if part == [] {
    } else {
      var init := q[..|q| - 1];
      assert forall e :: e in init ==> e in q;
      if Subsequence(part, init) {
        SubsequenceMembers(part, init);
      } else {
        SubsequenceMembers(part[..|part| - 1], init);
        assert part == part[..|part| - 1] + [part[|part| - 1]];
      }
    }
  }

  /** Distinct keys stay distinct and sorted expiry stays sorted. */
  lemma {:induction false} SubsequenceKeeps(part: seq<Entry>, q: seq<Entry>)
    requires Subsequence(part, q)
    ensures DistinctKeys(q) ==> DistinctKeys(part)
    ensures SortedExpiry(q) ==> SortedExpiry(part)
    decreases |q|
  {
    if part == [] {
    } else {
      var init, last := q[..|q| - 1], q[|q| - 1];
      if Subsequence(part, init) {
        SubsequenceKeeps(part, init);
      } else {
        var front := part[..|part| - 1];
        SubsequenceKeeps(front, init);
        SubsequenceMembers(front, init);
        forall i | 0 <= i < |front|
          ensures DistinctKeys(q) ==> !SameKey(part[i], last)
          ensures SortedExpiry(q) ==> NoLater(part[i], last)
        {
          assert front[i] in init;
        }
      }
    }
  }

  lemma {:induction false} SubsequenceTransitive(a: seq<Entry>, b: seq<Entry>, c: seq<Entry>)
    requires Subsequence(a, b) && Subsequence(b, c)
    ensures Subsequence(a, c)
    decreases |c|
  {
    if a == [] {
    } else {
      var c' := c[..|c| - 1];
      if Subsequence(b, c') {
        SubsequenceTransitive(a, b, c');
      } else {
        var b' := b[..|b| - 1];
        if Subsequence(a, b') {
          SubsequenceTransitive(a, b', c');
        } else {
          SubsequenceTransitive(a[..|a| - 1], b', c');
        }
      }
    }
  }

  lemma {:induction false} SubsequenceReflexive(q: seq<Entry>)
    ensures Subsequence(q, q)
  {
    if q == [] {
    } else {
      SubsequenceReflexive(q[..|q| - 1]);
    }
  }

  lemma {:induction false} SubsequenceWithout(q: seq<Entry>, i: nat)
    requires i < |q|
    ensures Subsequence(q[..i] + q[i + 1..], q)
  {
    var part := q[..i] + q[i + 1..];
    if i == |q| - 1 {
      SubsequenceReflexive(q[..i]);
      assert part == q[..i];
    } else {
      var init := q[..|q| - 1];
      SubsequenceWithout(init, i);
      assert part[..|part| - 1] == init[..i] + init[i + 1..];
    }
  }

  lemma {:induction false} SubsequenceTail(q: seq<Entry>)
    requires q != []
    ensures Subsequence(q[1..], q)
  {
    if |q| > 1 {
      var init := q[..|q| - 1];
      SubsequenceTail(init);
      assert q[1..][..|q| - 2] == init[1..];
    }
  }

  lemma TakingOutCounts(q: seq<Entry>, i: nat)
    requires i < |q|
    ensures multiset(q) == multiset(q[..i] + q[i + 1..]) + multiset([q[i]])
  {
    assert q == q[..i] + [q[i]] + q[i + 1..];
  }

  // ----- Filtering

  lemma {:induction false} KeepNext(q: seq<Entry>, f: Filter)
    requires q != []
    ensures var init, last := q[..|q| - 1], q[|q| - 1];
            q == init + [last] && Keep(q, f) == if f.Holds(last) then Keep(init, f) + [last] else Keep(init, f)
  {
  }

  lemma CountNext(all: seq<Entry>, kept: seq<Entry>, dropped: seq<Entry>, last: Entry, e: Entry)
    requires multiset(all)[e] == multiset(kept)[e] + multiset(dropped)[e]
    ensures multiset(all + [last])[e] == multiset(kept + [last])[e] + multiset(dropped)[e]
  {
  }

  lemma {:induction false} KeepSplitsAt(q: seq<Entry>, f: Filter, g: Filter, e: Entry)
    requires g == f.Negation()
    ensures multiset(q)[e] == multiset(Keep(q, f))[e] + multiset(Keep(q, g))[e]
  {
    if q == [] {
    } else {
      var init, last := q[..|q| - 1], q[|q| - 1];
      KeepSplitsAt(init, f, g, e);
      KeepNext(q, f);
      KeepNext(q, g);
      if f.Holds(last) {
        CountNext(init, Keep(init, f), Keep(init, g), last, e);
      } else {
        CountNext(init, Keep(init, g), Keep(init, f), last, e);
      }
    }
  }

  /** Every entry is kept by a filter or by its negation, as often as it is queued. */
  lemma KeepSplits(q: seq<Entry>, f: Filter, g: Filter)
    requires g == f.Negation()
    ensures forall e :: multiset(q)[e] == multiset(Keep(q, f))[e] + multiset(Keep(q, g))[e]
  {
    forall e ensures multiset(q)[e] == multiset(Keep(q, f))[e] + multiset(Keep(q, g))[e] {
      KeepSplitsAt(q, f, g, e);
    }
  }

  lemma {:induction false} KeepMembers(q: seq<Entry>, f: Filter)
    ensures forall e :: e in Keep(q, f) <==> e in q && f.Holds(e)
  {
    if q == [] {
    } else {
      KeepMembers(q[..|q| - 1], f);
      assert q == q[..|q| - 1] + [q[|q| - 1]];
    }
  }

  lemma {:induction false} KeepIsSubsequence(q: seq<Entry>, f: Filter)
    ensures Subsequence(Keep(q, f), q)
  {
    if q == [] {
    } else {
      var init := q[..|q| - 1];
      KeepIsSubsequence(init, f);
      if f.Holds(q[|q| - 1]) {
        assert q == init + [q[|q| - 1]];
      } else {
        assert Keep(q, f) == Keep(init, f);
      }
    }
  }

  lemma {:induction false} AllKept(q: seq<Entry>, f: Filter, g: Filter)
    requires g == f.Negation() && forall i :: 0 <= i < |q| ==> f.Holds(q[i])
    ensures Keep(q, f) == q && Keep(q, g) == []
  {
    if q == [] {
    } else {
      var init, last := q[..|q| - 1], q[|q| - 1];
      AllKept(init, f, g);
      assert f.Holds(last) && !g.Holds(last);
      assert q == init + [last];
    }
  }

  lemma FrontSorted(q: seq<Entry>)
    requires q != [] && SortedExpiry(q)
    ensures SortedExpiry(q[..|q| - 1])
  {
    var front := q[..|q| - 1];
    forall i, j | 0 <= i < j < |front| ensures NoLater(front[i], front[j]) {
      assert NoLater(q[i], q[j]);
    }
  }

  /** With expiry times in order, purging cuts off a front part of the queue. */
  lemma {:induction false} PurgeRemovesPrefix(q: seq<Entry>, now: int)
    requires SortedExpiry(q)
    ensures var k := |Keep(q, Outdated(now))|;
            k <= |q| && Keep(q, Outdated(now)) == q[..k] && Keep(q, Alive(now)) == q[k..]
  {
    if q == [] {
    } else {
      var init, last := q[..|q| - 1], q[|q| - 1];
      if Expired(last, now) {
        forall i | 0 <= i < |q| ensures Outdated(now).Holds(q[i]) {
          assert i < |q| - 1 ==> NoLater(q[i], last);
        }
        AllKept(q, Outdated(now), Alive(now));
      } else {
        FrontSorted(q);
        PurgeRemovesPrefix(init, now);
        assert q == init + [last];
      }
    }
  }

  // ----- The queue as a state machine

  /** The queue, its settings, the time of the last call, and everything ever accepted,
      dequeued and reported, each in order. */
  datatype State = State(queue: seq<Entry>, maxLen: nat, timeout: int, clock: int,
                         accepted: seq<Entry>, dequeued: seq<Entry>, reported: seq<Entry>)

  datatype Op =
    | Enqueue(entry: Entry)
    | Dequeue(dst: nat)
    | DropPacketWithDst(dst: nat)
    | GetSize
    | SetMaxQueueLen(len: nat)
    | SetQueueTimeout(timeout: int)

  ghost function Purged(s: State, now: int): State {
    s.(queue := Keep(s.queue, Alive(now)), reported := s.reported + Keep(s.queue, Outdated(now)), clock := now)
  }

  /** The queue after a new entry came in: the oldest one is pushed out of a full queue. */
  ghost function Pushed(p: State, e: Entry): State {
    var full := |p.queue| == p.maxLen && p.queue != [];
    p.(queue := (if full then p.queue[1..] else p.queue) + [e],
    reported := p.reported + (if full then [p.queue[0]] else []),
    accepted := p.accepted + [e])
  }

  ghost function FirstFor(q: seq<Entry>, dst: nat): (r: nat)
    ensures r <= |q| && (r < |q| ==> q[r].dst == dst) && forall i :: 0 <= i < r ==> q[i].dst != dst
  {
    if q == [] then 0
    else
      var r := FirstFor(q[..|q| - 1], dst);
      if r < |q| - 1 || q[r].dst == dst then r else |q|
  }

  ghost function Removed(p: State, i: nat): State
    requires i <= |p.queue|
  {
    if i == |p.queue| then p
    else p.(queue := p.queue[..i] + p.queue[i + 1..], dequeued := p.dequeued + [p.queue[i]])
  }

  ghost function Step(s: State, op: Op, now: int): State {
    var p := Purged(s, now);
    match op
    case Enqueue(e) => if HasKey(p.queue, e) then p else Pushed(p, e.(expire := s.timeout + now))
    case Dequeue(dst) => Removed(p, FirstFor(p.queue, dst))
    case DropPacketWithDst(dst) =>
      p.(queue := Keep(p.queue, NotFor(dst)), reported := p.reported + Keep(p.queue, For(dst)))
    case GetSize => p
    case SetMaxQueueLen(len) => s.(maxLen := len, clock := now)
    case SetQueueTimeout(timeout) => s.(timeout := timeout, clock := now)
  }

  // ----- What every run keeps

  /** As often as it was accepted, an entry is queued, dequeued or reported. */
  ghost predicate Accounted(accepted: seq<Entry>, queue: seq<Entry>, dequeued: seq<Entry>, reported: seq<Entry>,
      e: Entry)
  {
    multiset(accepted)[e] == multiset(queue)[e] + multiset(dequeued)[e] + multiset(reported)[e]
  }

  ghost predicate Conserved(accepted: seq<Entry>, queue: seq<Entry>, dequeued: seq<Entry>, reported: seq<Entry>) {
    forall e {:trigger Accounted(accepted, queue, dequeued, reported, e)} ::
        Accounted(accepted, queue, dequeued, reported, e)
  }

  /** No two queued entries share packet and destination, the queue is in order of
      acceptance, and nothing is lost or doubled. */
  ghost predicate Sound(s: State) {
    DistinctKeys(s.queue) && Subsequence(s.queue, s.accepted) && Conserved(s.accepted, s.queue, s.dequeued, s.reported)
  }

  /** Expiry times ascend, and none lies further away than the timeout. */
  ghost predicate Tidy(s: State) {
    SortedExpiry(s.queue) && forall e :: e in s.queue ==> e.expire <= s.clock + s.timeout
  }

  ghost predicate Bounded(s: State) {
    |s.queue| <= s.maxLen
  }

  lemma ConservedFilter(accepted: seq<Entry>, queue: seq<Entry>, dequeued: seq<Entry>, reported: seq<Entry>,
      out: Filter, stay: Filter)
    requires Conserved(accepted, queue, dequeued, reported) && stay.Negation() == out
    ensures Conserved(accepted, Keep(queue, stay), dequeued, reported + Keep(queue, out))
  {
    KeepSplits(queue, stay, out);
    var rest, told := Keep(queue, stay), reported + Keep(queue, out);
    forall e ensures Accounted(accepted, rest, dequeued, told, e) {
      assert Accounted(accepted, queue, dequeued, reported, e);
    }
  }

  lemma ConservedPop(accepted: seq<Entry>, queue: seq<Entry>, dequeued: seq<Entry>, reported: seq<Entry>)
    requires queue != [] && Conserved(accepted, queue, dequeued, reported)
    ensures Conserved(accepted, queue[1..], dequeued, reported + [queue[0]])
  {
    assert queue == [queue[0]] + queue[1..];
    var rest, told := queue[1..], reported + [queue[0]];
    forall e ensures Accounted(accepted, rest, dequeued, told, e) {
      assert Accounted(accepted, queue, dequeued, reported, e);
    }
  }

  lemma ConservedRemove(accepted: seq<Entry>, queue: seq<Entry>, dequeued: seq<Entry>, reported: seq<Entry>, i: nat)
    requires i < |queue| && Conserved(accepted, queue, dequeued, reported)
    ensures Conserved(accepted, queue[..i] + queue[i + 1..], dequeued + [queue[i]], reported)
  {
    TakingOutCounts(queue, i);
    var rest, out := queue[..i] + queue[i + 1..], dequeued + [queue[i]];
    forall e ensures Accounted(accepted, rest, out, reported, e) {
      assert Accounted(accepted, queue, dequeued, reported, e);
    }
  }

  lemma ConservedAppend(accepted: seq<Entry>, queue: seq<Entry>, dequeued: seq<Entry>, reported: seq<Entry>, e: Entry)
    requires Conserved(accepted, queue, dequeued, reported)
    ensures Conserved(accepted + [e], queue + [e], dequeued, reported)
  {
    var all, more := accepted + [e], queue + [e];
    forall x ensures Accounted(all, more, dequeued, reported, x) {
      assert Accounted(accepted, queue, dequeued, reported, x);
    }
  }

  lemma PurgeKeeps(s: State, now: int)
    requires s.clock <= now
    ensures Sound(s) ==> Sound(Purged(s, now))
    ensures Tidy(s) ==> Tidy(Purged(s, now))
    ensures |Purged(s, now).queue| <= |s.queue|
  {
    var live := Keep(s.queue, Alive(now));
    KeepIsSubsequence(s.queue, Alive(now));
    SubsequenceMembers(live, s.queue);
    SubsequenceKeeps(live, s.queue);
    if Sound(s) {
      ConservedFilter(s.accepted, s.queue, s.dequeued, s.reported, Outdated(now), Alive(now));
      SubsequenceTransitive(live, s.queue, s.accepted);
    }
  }

  /** The two halves of a push: the front leaves, the new entry joins. */
  ghost function Popped(p: State): State
    requires p.queue != []
  {
    p.(queue := p.queue[1..], reported := p.reported + [p.queue[0]])
  }

  ghost function Appended(p: State, e: Entry): State {
    p.(queue := p.queue + [e], accepted := p.accepted + [e])
  }

  lemma PoppedKeeps(p: State)
    requires p.queue != []
    ensures Sound(p) ==> Sound(Popped(p))
    ensures Tidy(p) ==> Tidy(Popped(p))
  {
    var rest := p.queue[1..];
    SubsequenceTail(p.queue);
    SubsequenceMembers(rest, p.queue);
    SubsequenceKeeps(rest, p.queue);
    if Sound(p) {
      SubsequenceTransitive(rest, p.queue, p.accepted);
      ConservedPop(p.accepted, p.queue, p.dequeued, p.reported);
    }
  }

  lemma AppendedDistinct(q: seq<Entry>, e: Entry)
    requires DistinctKeys(q) && !HasKey(q, e)
    ensures DistinctKeys(q + [e])
  {
    forall i, j | 0 <= i < j < |q| + 1 ensures !SameKey((q + [e])[i], (q + [e])[j]) {
      assert j < |q| ==> !SameKey(q[i], q[j]);
      assert j == |q| ==> !SameKey(q[i], e);
    }
  }

  lemma AppendedKeepsSound(p: State, e: Entry)
    requires Sound(p) && !HasKey(p.queue, e)
    ensures Sound(Appended(p, e))
  {
    ConservedAppend(p.accepted, p.queue, p.dequeued, p.reported, e);
    AppendedDistinct(p.queue, e);
  }

  lemma AppendedKeepsTidy(p: State, e: Entry)
    requires Tidy(p) && e.expire == p.clock + p.timeout
    ensures Tidy(Appended(p, e))
  {
    var q := p.queue + [e];
    forall i, j | 0 <= i < j < |q| ensures NoLater(q[i], q[j]) {
      assert j < |p.queue| ==> NoLater(p.queue[i], p.queue[j]);
      assert p.queue[i] in p.queue;
    }
  }

  lemma PushKeeps(p: State, e: Entry)
    requires !HasKey(p.queue, e)
    ensures Sound(p) ==> Sound(Pushed(p, e))
    ensures Tidy(p) && e.expire == p.clock + p.timeout ==> Tidy(Pushed(p, e))
  {
    var p' := if |p.queue| == p.maxLen && p.queue != [] then Popped(p) else p;
    if p' != p {
      PoppedKeeps(p);
    } else {
      assert p.reported + [] == p.reported;
    }
    assert Pushed(p, e) == Appended(p', e);
    if Sound(p) { AppendedKeepsSound(p', e); }
    if Tidy(p) && e.expire == p.clock + p.timeout { AppendedKeepsTidy(p', e); }
  }

  lemma RemoveKeeps(p: State, i: nat)
    requires i < |p.queue|
    ensures Sound(p) ==> Sound(Removed(p, i))
    ensures Tidy(p) ==> Tidy(Removed(p, i))
  {
    var rest := p.queue[..i] + p.queue[i + 1..];
    SubsequenceWithout(p.queue, i);
    SubsequenceMembers(rest, p.queue);
    SubsequenceKeeps(rest, p.queue);
    if Sound(p) {
      SubsequenceTransitive(rest, p.queue, p.accepted);
      ConservedRemove(p.accepted, p.queue, p.dequeued, p.reported, i);
    }
  }

  lemma DropKeeps(p: State, dst: nat)
    ensures var q := p.(queue := Keep(p.queue, NotFor(dst)), reported := p.reported + Keep(p.queue, For(dst)));
            (Sound(p) ==> Sound(q)) && (Tidy(p) ==> Tidy(q)) && |q.queue| <= |p.queue|
  {
    var rest := Keep(p.queue, NotFor(dst));
    KeepIsSubsequence(p.queue, NotFor(dst));
    SubsequenceMembers(rest, p.queue);
    SubsequenceKeeps(rest, p.queue);
    if Sound(p) {
      ConservedFilter(p.accepted, p.queue, p.dequeued, p.reported, For(dst), NotFor(dst));
      SubsequenceTransitive(rest, p.queue, p.accepted);
    }
  }

  /** The entry a call queues: the caller's, stamped with its expiry time. */
  lemma StampKeepsKey(q: seq<Entry>, e: Entry, expire: int)
    ensures HasKey(q, e.(expire := expire)) == HasKey(q, e)
  {
    var stamped := e.(expire := expire);
    assert forall o: Entry :: SameKey(o, stamped) == SameKey(o, e);
  }

  lemma EnqueueKeeps(p: State, e: Entry, expire: int)
    ensures var q := if HasKey(p.queue, e) then p else Pushed(p, e.(expire := expire));
            && (Sound(p) ==> Sound(q))
            && (Tidy(p) && expire == p.clock + p.timeout ==> Tidy(q))
  {
    StampKeepsKey(p.queue, e, expire);
    if !HasKey(p.queue, e) {
      PushKeeps(p, e.(expire := expire));
    }
  }

  lemma DequeueKeeps(p: State, dst: nat)
    ensures Sound(p) ==> Sound(Removed(p, FirstFor(p.queue, dst)))
    ensures Tidy(p) ==> Tidy(Removed(p, FirstFor(p.queue, dst)))
  {
    if FirstFor(p.queue, dst) < |p.queue| {
      RemoveKeeps(p, FirstFor(p.queue, dst));
    }
  }

  lemma EnqueueSound(s: State, e: Entry, now: int)
    requires Sound(s) && s.clock <= now
    ensures Sound(Step(s, Enqueue(e), now))
  {
    PurgeKeeps(s, now);
    EnqueueKeeps(Purged(s, now), e, s.timeout + now);
  }

  lemma DequeueSound(s: State, dst: nat, now: int)
    requires Sound(s) && s.clock <= now
    ensures Sound(Step(s, Dequeue(dst), now))
  {
    PurgeKeeps(s, now);
    DequeueKeeps(Purged(s, now), dst);
  }

  lemma DropSound(s: State, dst: nat, now: int)
    requires Sound(s) && s.clock <= now
    ensures Sound(Step(s, DropPacketWithDst(dst), now))
  {
    PurgeKeeps(s, now);
    DropKeeps(Purged(s, now), dst);
  }

  /** Whatever is called, and however the settings change. */
  lemma StepKeepsSound(s: State, op: Op, now: int)
    requires Sound(s) && s.clock <= now
    ensures Sound(Step(s, op, now))
  {
    match op
    case Enqueue(e) => EnqueueSound(s, e, now);
    case Dequeue(dst) => DequeueSound(s, dst, now);
    case DropPacketWithDst(dst) => DropSound(s, dst, now);
    case GetSize => PurgeKeeps(s, now);
    case SetMaxQueueLen(len) =>
    case SetQueueTimeout(timeout) =>
  }

  /** No entry expires later than the timeout allows from now on. */
  ghost predicate WithinTimeout(q: seq<Entry>, now: int, timeout: int) {
    forall e :: e in q ==> e.expire <= now + timeout
  }

  /** Order and timeout survive a call exactly when the call does not lower the timeout below
      what a queued entry still has. */
  lemma StepKeepsTidy(s: State, op: Op, now: int)
    requires Tidy(s) && s.clock <= now
    ensures Tidy(Step(s, op, now)) <==> (op.SetQueueTimeout? ==> WithinTimeout(s.queue, now, op.timeout))
  {
    var p := Purged(s, now);
    PurgeKeeps(s, now);
    match op
    case Enqueue(e) => EnqueueKeeps(p, e, s.timeout + now);
    case Dequeue(dst) => DequeueKeeps(p, dst);
    case DropPacketWithDst(dst) => DropKeeps(p, dst);
    case _ =>
  }

  /** The length bound survives a call exactly when the call does not lower it below the
      length: the queue makes room only when its length equals the bound. */
  lemma StepKeepsBound(s: State, op: Op, now: int)
    requires Bounded(s) && s.clock <= now && s.maxLen >= 1
    ensures Bounded(Step(s, op, now)) <==> (op.SetMaxQueueLen? ==> |s.queue| <= op.len)
  {
    PurgeKeeps(s, now);
    match op
    case DropPacketWithDst(dst) => DropKeeps(Purged(s, now), dst);
    case _ =>
  }

  /** A queue that is already too long grows with every accepted entry. */
  lemma OverfullGrows(s: State, e: Entry, now: int)
    requires s.maxLen >= 1
    ensures var live, after := Purged(s, now), Step(s, Enqueue(e), now);
            !HasKey(live.queue, e) ==>
              && (Bounded(after) <==> Bounded(live))
              && (!Bounded(live) ==> |after.queue| == |live.queue| + 1)
  {
  }

  ghost predicate Timed(start: int, calls: seq<(Op, int)>) {
    && (forall i :: 0 <= i < |calls| ==> start <= calls[i].1)
    && forall i, j :: 0 <= i < j < |calls| ==> calls[i].1 <= calls[j].1
  }

  ghost function Run(s: State, calls: seq<(Op, int)>): State {
    if calls == [] then s
    else Step(Run(s, calls[..|calls| - 1]), calls[|calls| - 1].0, calls[|calls| - 1].1)
  }

  /** Over every run, setters included: keys are distinct, the queue is in order of
      acceptance, and every accepted entry is accounted for exactly once. */
  lemma {:induction false} RunIsSound(s: State, calls: seq<(Op, int)>)
    requires Sound(s) && Timed(s.clock, calls)
    ensures Sound(Run(s, calls))
  {
    if calls == [] {
    } else {
      var init := calls[..|calls| - 1];
      RunIsSound(s, init);
      StepKeepsSound(Run(s, init), calls[|calls| - 1].0, calls[|calls| - 1].1);
    }
  }

  /** The queue is within its settings: in order, within the timeout, within the bound. */
  ghost predicate WithinSettings(s: State) {
    Tidy(s) && Bounded(s) && s.maxLen >= 1
  }

  /** The calls that leave the queue within its settings. */
  ghost predicate Gentle(s: State, op: Op, now: int) {
    match op
    case SetMaxQueueLen(len) => len >= 1 && |s.queue| <= len
    case SetQueueTimeout(timeout) => WithinTimeout(s.queue, now, timeout)
    case _ => true
  }

  lemma StepKeepsSettings(s: State, op: Op, now: int)
    requires WithinSettings(s) && s.clock <= now
    ensures WithinSettings(Step(s, op, now)) <==> Gentle(s, op, now)
  {
    StepKeepsTidy(s, op, now);
    StepKeepsBound(s, op, now);
  }

  /** A queue of two entries is sound as soon as they have different keys. */
  lemma TwoEntriesSound(first: Entry, second: Entry, maxLen: nat, timeout: int)
    requires !SameKey(first, second)
    ensures Sound(State([first, second], maxLen, timeout, 0, [first, second], [], []))
  {
    var q := [first, second];
    SubsequenceReflexive(q);
    forall e ensures Accounted(q, q, [], [], e) {
    }
  }

  /** For example: two entries, the bound lowered from 2 to 1, and one more accepted: three
      entries against a bound of 1. */
  lemma LoweredBoundExample()
    ensures var q := [Entry(1, 1, 10), Entry(2, 1, 10)];
            var s := State(q, 2, 10, 0, q, [], []);
            var after := Step(Step(s, SetMaxQueueLen(1), 0), Enqueue(Entry(3, 1, 0)), 0);
            && Sound(s) && WithinSettings(s)
            && |after.queue| == 3 && after.maxLen == 1
  {
    var first, second, third := Entry(1, 1, 10), Entry(2, 1, 10), Entry(3, 1, 0);
    var q := [first, second];
    TwoEntriesSound(first, second, 2, 10);
    AllKept(q, Alive(0), Outdated(0));
    assert !SameKey(first, third) && !SameKey(second, third);
    OverfullGrows(State(q, 1, 10, 0, q, [], []), third, 0);
  }

  /** Every call of the run is gentle at the moment it is made. */
  ghost predicate GentleRun(s: State, calls: seq<(Op, int)>) {
    if calls == [] then true
    else
      var init, last := calls[..|calls| - 1], calls[|calls| - 1];
      GentleRun(s, init) && Gentle(Run(s, init), last.0, last.1)
  }

  /** The queue is within its settings at the start and after every call. */
  ghost predicate AlwaysWithin(s: State, calls: seq<(Op, int)>) {
    if calls == [] then WithinSettings(s)
    else AlwaysWithin(s, calls[..|calls| - 1]) && WithinSettings(Run(s, calls))
  }

  lemma AlwaysWithinLast(s: State, calls: seq<(Op, int)>)
    requires AlwaysWithin(s, calls)
    ensures WithinSettings(Run(s, calls))
  {
  }

  /** Over every run: the queue stays within its settings throughout exactly when every
      call is gentle where it is made. */
  lemma {:induction false} RunWithinSettings(s: State, calls: seq<(Op, int)>)
    requires WithinSettings(s) && Timed(s.clock, calls)
    ensures AlwaysWithin(s, calls) <==> GentleRun(s, calls)
  {
    if calls == [] {
    } else {
      var init, last := calls[..|calls| - 1], calls[|calls| - 1];
      RunWithinSettings(s, init);
      if AlwaysWithin(s, init) {
        AlwaysWithinLast(s, init);
        StepKeepsSettings(Run(s, init), last.0, last.1);
      }
    }
  }

  /** The settings of the queue are never changed. */
  ghost predicate FixedSettings(calls: seq<(Op, int)>) {
    forall i :: 0 <= i < |calls| ==> !calls[i].0.SetMaxQueueLen? && !calls[i].0.SetQueueTimeout?
  }

  /** With fixed settings the length never exceeds the bound and expiry times ascend. */
  lemma {:induction false} RunIsTidy(s: State, calls: seq<(Op, int)>)
    requires Tidy(s) && Bounded(s) && s.maxLen >= 1
    requires Timed(s.clock, calls) && FixedSettings(calls)
    ensures Tidy(Run(s, calls)) && Bounded(Run(s, calls)) && Run(s, calls).maxLen == s.maxLen
  {
    if calls == [] {
    } else {
      var init, last := calls[..|calls| - 1], calls[|calls| - 1];
      RunIsTidy(s, init);
      StepKeepsSettings(Run(s, init), last.0, last.1);
    }
  }

  // ----- The order of expiry by itself

  lemma LiveSorted(s: State, now: int)
    requires SortedExpiry(s.queue)
    ensures SortedExpiry(Purged(s, now).queue)
  {
    KeepIsSubsequence(s.queue, Alive(now));
    SubsequenceKeeps(Keep(s.queue, Alive(now)), s.queue);
  }

  /** What a newcomer finds in front of it: a full queue has pushed out its oldest entry. */
  ghost function InFront(p: State): seq<Entry> {
    if |p.queue| == p.maxLen && p.queue != [] then p.queue[1..] else p.queue
  }

  /** The entry is refused, or nothing in front of it expires after it. */
  ghost predicate EntersInOrder(s: State, e: Entry, now: int) {
    var p := Purged(s, now);
    var rest := InFront(p);
    HasKey(p.queue, e) || rest == [] || rest[|rest| - 1].expire <= s.timeout + now
  }

  lemma AppendKeepsOrder(q: seq<Entry>, e: Entry)
    requires SortedExpiry(q)
    ensures SortedExpiry(q + [e]) <==> q == [] || NoLater(q[|q| - 1], e)
  {
    var more := q + [e];
    if q == [] {
    } else if NoLater(q[|q| - 1], e) {
      forall i, j | 0 <= i < j < |more| ensures NoLater(more[i], more[j]) {
        assert j < |q| ==> NoLater(q[i], q[j]);
        assert i < |q| - 1 ==> NoLater(q[i], q[|q| - 1]);
      }
    } else {
      assert !NoLater(more[|q| - 1], more[|q|]);
    }
  }

  lemma InFrontSorted(p: State)
    requires SortedExpiry(p.queue)
    ensures SortedExpiry(InFront(p))
  {
    if InFront(p) != p.queue {
      SubsequenceTail(p.queue);
      SubsequenceKeeps(InFront(p), p.queue);
    }
  }

  lemma EnqueueKeepsOrder(s: State, e: Entry, now: int)
    requires SortedExpiry(Purged(s, now).queue)
    ensures SortedExpiry(Step(s, Enqueue(e), now).queue) <==> EntersInOrder(s, e, now)
  {
    var p := Purged(s, now);
    if !HasKey(p.queue, e) {
      var stamped := e.(expire := s.timeout + now);
      InFrontSorted(p);
      assert Step(s, Enqueue(e), now).queue == InFront(p) + [stamped];
      AppendKeepsOrder(InFront(p), stamped);
    }
  }

  lemma DequeueKeepsOrder(s: State, dst: nat, now: int)
    requires SortedExpiry(Purged(s, now).queue)
    ensures SortedExpiry(Step(s, Dequeue(dst), now).queue)
  {
    var q := Purged(s, now).queue;
    var i := FirstFor(q, dst);
    if i < |q| {
      SubsequenceWithout(q, i);
      SubsequenceKeeps(q[..i] + q[i + 1..], q);
    }
  }

  lemma DropKeepsOrder(s: State, dst: nat, now: int)
    requires SortedExpiry(Purged(s, now).queue)
    ensures SortedExpiry(Step(s, DropPacketWithDst(dst), now).queue)
  {
    var q := Purged(s, now).queue;
    KeepIsSubsequence(q, NotFor(dst));
    SubsequenceKeeps(Keep(q, NotFor(dst)), q);
  }

  /** In a queue sorted by expiry, the order survives every call, except that an accepted
      entry has to expire no earlier than the one in front of it. */
  lemma StepKeepsOrder(s: State, op: Op, now: int)
    requires SortedExpiry(s.queue)
    ensures SortedExpiry(Step(s, op, now).queue) <==> (op.Enqueue? ==> EntersInOrder(s, op.entry, now))
  {
    LiveSorted(s, now);
    match op
    case Enqueue(e) => EnqueueKeepsOrder(s, e, now);
    case Dequeue(dst) => DequeueKeepsOrder(s, dst, now);
    case DropPacketWithDst(dst) => DropKeepsOrder(s, dst, now);
    case _ =>
  }

  /** Every entry the run offers is refused or enters in order where it is offered. */
  ghost predicate OrderlyRun(s: State, calls: seq<(Op, int)>) {
    if calls == [] then true
    else
      var init, last := calls[..|calls| - 1], calls[|calls| - 1];
      OrderlyRun(s, init) && (last.0.Enqueue? ==> EntersInOrder(Run(s, init), last.0.entry, last.1))
  }

  /** The queue is sorted by expiry at the start and after every call. */
  ghost predicate AlwaysSorted(s: State, calls: seq<(Op, int)>) {
    if calls == [] then SortedExpiry(s.queue)
    else AlwaysSorted(s, calls[..|calls| - 1]) && SortedExpiry(Run(s, calls).queue)
  }

  lemma AlwaysSortedLast(s: State, calls: seq<(Op, int)>)
    requires AlwaysSorted(s, calls)
    ensures SortedExpiry(Run(s, calls).queue)
  {
  }

  /** Over every run: the queue stays sorted by expiry throughout exactly when every entry
      offered is refused or enters in order. */
  lemma {:induction false} RunKeepsOrder(s: State, calls: seq<(Op, int)>)
    requires SortedExpiry(s.queue)
    ensures AlwaysSorted(s, calls) <==> OrderlyRun(s, calls)
  {
    if calls == [] {
    } else {
      var init, last := calls[..|calls| - 1], calls[|calls| - 1];
      RunKeepsOrder(s, init);
      if AlwaysSorted(s, init) {
        AlwaysSortedLast(s, init);
        StepKeepsOrder(Run(s, init), last.0, last.1);
      }
    }
  }

  /** Lowering the timeout below what the last entry still has puts the next accepted entry
      before it. */
  lemma LoweredTimeoutUnsorts(s: State, e: Entry, timeout: int)
    requires s.queue != [] && |s.queue| < s.maxLen && !HasKey(s.queue, e)
    requires forall q :: q in s.queue ==> !Expired(q, s.clock)
    requires s.queue[|s.queue| - 1].expire > s.clock + timeout
    ensures !SortedExpiry(Step(Step(s, SetQueueTimeout(timeout), s.clock), Enqueue(e), s.clock).queue)
  {
    AllKept(s.queue, Alive(s.clock), Outdated(s.clock));
    var q := Step(Step(s, SetQueueTimeout(timeout), s.clock), Enqueue(e), s.clock).queue;
    assert !NoLater(q[|q| - 2], q[|q| - 1]);
  }

  /** For example: with a timeout of 10 lowered to 2, an entry accepted later expires first. */
  lemma LoweredTimeoutExample()
    ensures var first := Entry(1, 1, 10);
            var s := State([first], 5, 10, 0, [first], [], []);
            && Sound(s) && WithinSettings(s)
            && !SortedExpiry(Step(Step(s, SetQueueTimeout(2), 0), Enqueue(Entry(2, 1, 0)), 0).queue)
  {
    var first, second := Entry(1, 1, 10), Entry(2, 1, 0);
    var s := State([first], 5, 10, 0, [first], [], []);
    SubsequenceReflexive(s.queue);
    forall e ensures Accounted(s.accepted, s.queue, s.dequeued, s.reported, e) {
    }
    assert !SameKey(first, second);
    LoweredTimeoutUnsorts(s, second, 2);
  }

  /** An entry is refused exactly when a live one has its packet and destination. */
  lemma DuplicateIsLive(s: State, e: Entry, now: int)
    ensures HasKey(Purged(s, now).queue, e) <==>
        exists o {:trigger SameKey(o, e)} :: o in s.queue && !Expired(o, now) && SameKey(o, e)
  {
    var live := Keep(s.queue, Alive(now));
    KeepMembers(s.queue, Alive(now));
    if o :| o in s.queue && !Expired(o, now) && SameKey(o, e) {
      assert o in live;
      var k :| 0 <= k < |live| && live[k] == o;
      assert SameKey(live[k], e);
    }
    if HasKey(live, e) {
      var k :| 0 <= k < |live| && SameKey(live[k], e);
      assert live[k] in live;
    }
  }

  lemma FirstExpiresFirst(q: seq<Entry>, dst: nat)
    requires SortedExpiry(q)
    ensures forall e :: e in q && e.dst == dst ==> FirstFor(q, dst) < |q| && NoLater(q[FirstFor(q, dst)], e)
  {
    var i := FirstFor(q, dst);
    forall e | e in q && e.dst == dst ensures i < |q| && NoLater(q[i], e) {
      var k :| 0 <= k < |q| && q[k] == e;
      assert i <= k;
      assert i < k ==> NoLater(q[i], q[k]);
    }
  }

  /** Dequeuing hands out the earliest-accepted live entry for the destination, the one that
      expires first among them, and finds one exactly when there is one. */
  lemma DequeueIsEarliest(s: State, dst: nat, now: int)
    requires Tidy(s)
    ensures var live := Purged(s, now).queue; var i := FirstFor(live, dst); var after := Step(s, Dequeue(dst), now);
            && (i < |live| <==> exists e :: e in s.queue && e.dst == dst && !Expired(e, now))
            && (i < |live| ==>
                  && after.dequeued == s.dequeued + [live[i]] && live[i] in s.queue && live[i].dst == dst
                  && !Expired(live[i], now)
                  && forall e :: e in s.queue && e.dst == dst && !Expired(e, now) ==> live[i].expire <= e.expire)
            && (i == |live| ==> after == Purged(s, now))
  {
    var live := Keep(s.queue, Alive(now));
    KeepMembers(s.queue, Alive(now));
    LiveSorted(s, now);
    FirstExpiresFirst(live, dst);
    var i := FirstFor(live, dst);
    assert i < |live| ==> live[i] in live;
    forall e | e in s.queue && e.dst == dst && !Expired(e, now) ensures i < |live| && live[i].expire <= e.expire {
      assert Alive(now).Holds(e) && e in live;
      assert NoLater(live[i], e);
    }
  }

  /** A full queue pushes out an entry no other entry expires before. */
  lemma OverflowDropsOldest(s: State, e: Entry, now: int)
    requires Tidy(s) && s.clock <= now
    ensures var live := Purged(s, now); var after := Step(s, Enqueue(e), now);
            !HasKey(live.queue, e) && live.queue != [] && |live.queue| == s.maxLen ==>
              && after.reported == live.reported + [live.queue[0]]
              && forall o :: o in live.queue ==> live.queue[0].expire <= o.expire
  {
    LiveSorted(s, now);
    var live := Purged(s, now).queue;
    forall o | o in live ensures live[0].expire <= o.expire {
      var k :| 0 <= k < |live| && live[k] == o;
      assert k > 0 ==> NoLater(live[0], live[k]);
    }
  }

  // ----- The queue itself

  class Buffer {
    var queue: seq<Entry>
    var maxLen: nat
    var timeout: int
    /** The error callbacks made so far, in order. */
    var reported: seq<Entry>
    ghost var clock: int
    ghost var accepted: seq<Entry>
    ghost var dequeued: seq<Entry>

    ghost function View(): State
      reads this
    {
      State(queue, maxLen, timeout, clock, accepted, dequeued, reported)
    }

    constructor (maxLen: nat, routeToQueueTimeout: int, now: int)
      ensures View() == State([], maxLen, routeToQueueTimeout, now, [], [], [])
      ensures Sound(View()) && Tidy(View()) && Bounded(View())
    {
      this.maxLen, timeout, clock := maxLen, routeToQueueTimeout, now;
      queue, reported, accepted, dequeued := [], [], [], [];
    }

    method RemoveIf(f: Filter)
      modifies this`queue
      ensures queue == Keep(old(queue), f.Negation())
    {
      var kept: seq<Entry> := [];
      for i := 0 to |queue|
        invariant queue == old(queue)
        invariant kept == Keep(queue[..i], f.Negation())
      {
        assert queue[..i + 1][..i] == queue[..i];
        if !f.Holds(queue[i]) {
          kept := kept + [queue[i]];
        }
      }
      assert queue[..|queue|] == queue;
      queue := kept;
    }

    method ReportIf(f: Filter)
      modifies this`reported
      ensures reported == old(reported) + Keep(queue, f)
    {
      for i := 0 to |queue|
        invariant reported == old(reported) + Keep(queue[..i], f)
      {
        assert queue[..i + 1][..i] == queue[..i];
        if f.Holds(queue[i]) {
          reported := reported + [queue[i]];
        }
      }
      assert queue[..|queue|] == queue;
    }

    method Purge(now: int)
      requires clock <= now
      modifies this
      ensures View() == Purged(old(View()), now)
    {
      clock := now;
      ReportIf(Outdated(now));
      RemoveIf(Outdated(now));
    }

    method GetSize(now: int) returns (n: nat)
      requires clock <= now
      modifies this
      ensures View() == Step(old(View()), Op.GetSize, now)
      ensures n == |queue|
    {
      Purge(now);
      n := |queue|;
    }

    /** The caller's entry gets its expiry time only if it is accepted. */
    method Enqueue(entry: Entry, now: int) returns (ok: bool, stamped: Entry)
      requires clock <= now
      requires maxLen > 0 || Purged(View(), now).queue != []
      modifies this
      ensures View() == Step(old(View()), Op.Enqueue(entry), now)
      ensures ok == !HasKey(Purged(old(View()), now).queue, entry)
      ensures stamped == if ok then entry.(expire := timeout + now) else entry
    {
      Purge(now);
      stamped := entry;
      for i := 0 to |queue|
        invariant View() == Purged(old(View()), now)
        invariant forall k :: 0 <= k < i ==> !SameKey(queue[k], entry)
      {
        if SameKey(queue[i], entry) {
          return false, stamped;
        }
      }
      stamped := entry.(expire := timeout + now);
      if |queue| == maxLen {
        reported := reported + [queue[0]];
        queue := queue[1..];
      }
      queue := queue + [stamped];
      accepted := accepted + [stamped];
      return true, stamped;
    }

    method DropPacketWithDst(dst: nat, now: int)
      requires clock <= now
      modifies this
      ensures View() == Step(old(View()), Op.DropPacketWithDst(dst), now)
      ensures forall e :: e in queue ==> e.dst != dst
    {
      Purge(now);
      KeepMembers(queue, NotFor(dst));
      ReportIf(For(dst));
      RemoveIf(For(dst));
    }

    /** `given` is what the caller's entry held before; it is overwritten on success only. */
    method Dequeue(dst: nat, given: Entry, now: int) returns (ok: bool, entry: Entry)
      requires clock <= now
      modifies this
      ensures View() == Step(old(View()), Op.Dequeue(dst), now)
      ensures var live := Purged(old(View()), now).queue; var i := FirstFor(live, dst);
              ok == (i < |live|) && entry == if ok then live[i] else given
    {
      Purge(now);
      entry := given;
      for i := 0 to |queue|
        invariant View() == Purged(old(View()), now)
        invariant forall k :: 0 <= k < i ==> queue[k].dst != dst
      {
        if queue[i].dst == dst {
          assert FirstFor(queue, dst) == i;
          entry := queue[i];
          queue := queue[..i] + queue[i + 1..];
          dequeued := dequeued + [entry];
          return true, entry;
        }
      }
      return false, entry;
    }

    /** Looks at expired entries too: nothing is purged first. */
    method Find(dst: nat) returns (found: bool)
      ensures found <==> exists e :: e in queue && e.dst == dst
    {
      for i := 0 to |queue|
        invariant forall k :: 0 <= k < i ==> queue[k].dst != dst
      {
        if queue[i].dst == dst {
          assert queue[i] in queue;
          return true;
        }
      }
      return false;
    }

    method SetMaxQueueLen(len: nat, now: int)
      requires clock <= now
      modifies this
      ensures View() == Step(old(View()), Op.SetMaxQueueLen(len), now)
    {
      maxLen, clock := len, now;
    }

    method SetQueueTimeout(t: int, now: int)
      requires clock <= now
      modifies this
      ensures View() == Step(old(View()), Op.SetQueueTimeout(t), now)
    {
      timeout, clock := t, now;
    }
  }
}
