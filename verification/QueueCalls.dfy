/** What each call does to the request queue, in terms of the entries' own fields. */
module QueueCalls {
  import opened RequestQueue

  /** `part` are the entries of `q` at these positions, in order. */
  ghost predicate PickedBy(q: seq<Entry>, part: seq<Entry>, at: seq<nat>) {
    && |at| == |part|
    && (forall k :: 0 <= k < |at| ==> at[k] < |q| && part[k] == q[at[k]])
    && (forall k, l :: 0 <= k < l < |at| ==> at[k] < at[l])
  }

  /** The positions are exactly those of the entries the filter holds of. */
  ghost predicate ExactlyThose(q: seq<Entry>, f: Filter, at: seq<nat>) {
    forall i: nat :: i in at <==> i < |q| && f.Holds(q[i])
  }

  lemma ThoseNext(q: seq<Entry>, f: Filter, before: seq<nat>)
    requires q != [] && ExactlyThose(q[..|q| - 1], f, before)
    ensures ExactlyThose(q, f, before + if f.Holds(q[|q| - 1]) then [|q| - 1] else [])
  {
    var init := q[..|q| - 1];
    var at: seq<nat> := before + if f.Holds(q[|q| - 1]) then [|q| - 1] else [];
    forall i: nat ensures i in at <==> i < |q| && f.Holds(q[i]) {
      assert i in at <==> i in before || (i == |init| && f.Holds(q[|init|]));
      assert i < |init| ==> init[i] == q[i];
    }
  }

  lemma PicksNext(q: seq<Entry>, part: seq<Entry>, before: seq<nat>, last: bool)
    requires q != [] && PickedBy(q[..|q| - 1], part, before)
    ensures PickedBy(q, part + (if last then [q[|q| - 1]] else []), before + if last then [|q| - 1] else [])
  {
    var init := q[..|q| - 1];
    assert forall k :: 0 <= k < |before| ==> init[before[k]] == q[before[k]];
  }

  lemma {:induction false} KeepPicks(q: seq<Entry>, f: Filter) returns (at: seq<nat>)
    ensures PickedBy(q, Keep(q, f), at) && ExactlyThose(q, f, at)
  {
    if q == [] {
      at := [];
    } else {
      var before := KeepPicks(q[..|q| - 1], f);
      var last := f.Holds(q[|q| - 1]);
      at := before + if last then [|q| - 1] else [];
      assert Keep(q, f) == Keep(q[..|q| - 1], f) + if last then [q[|q| - 1]] else [];
      assert PickedBy(q, Keep(q, f), at) by {
        PicksNext(q, Keep(q[..|q| - 1], f), before, last);
      }
      assert ExactlyThose(q, f, at) by {
        ThoseNext(q, f, before);
      }
    }
  }

  /** Nothing but queue, report and clock changes. */
  ghost predicate SettingsKept(s: State, t: State) {
    t.maxLen == s.maxLen && t.timeout == s.timeout
  }

  /** Purging keeps exactly the entries that expire no earlier than now, in order, and reports the others,
      in order. */
  lemma PurgeExact(s: State, now: int) returns (live: seq<nat>, gone: seq<nat>)
    ensures var t := Purged(s, now);
            && SettingsKept(s, t) && t.clock == now && t.accepted == s.accepted && t.dequeued == s.dequeued
            && PickedBy(s.queue, t.queue, live) && s.reported <= t.reported
            && PickedBy(s.queue, t.reported[|s.reported|..], gone)
    ensures forall i: nat :: i in live <==> i < |s.queue| && s.queue[i].expire >= now
    ensures forall i: nat :: i in gone <==> i < |s.queue| && s.queue[i].expire < now
  {
    live := KeepPicks(s.queue, Alive(now));
    gone := KeepPicks(s.queue, Outdated(now));
    assert Purged(s, now).reported[|s.reported|..] == Keep(s.queue, Outdated(now));
  }

  /** Dropping the packets for a destination, of a purged queue, keeps exactly the entries for other
      destinations, in order, and reports the others, in order. */
  lemma DropExact(s: State, dst: nat, now: int) returns (stay: seq<nat>, gone: seq<nat>)
    ensures var p, t := Purged(s, now), Step(s, DropPacketWithDst(dst), now);
            && SettingsKept(s, t) && t.clock == now && t.accepted == s.accepted && t.dequeued == s.dequeued
            && PickedBy(p.queue, t.queue, stay) && p.reported <= t.reported
            && PickedBy(p.queue, t.reported[|p.reported|..], gone)
            && (forall i: nat :: i in stay <==> i < |p.queue| && p.queue[i].dst != dst)
            && (forall i: nat :: i in gone <==> i < |p.queue| && p.queue[i].dst == dst)
  {
    var p := Purged(s, now);
    stay := KeepPicks(p.queue, NotFor(dst));
    gone := KeepPicks(p.queue, For(dst));
    assert Step(s, DropPacketWithDst(dst), now).reported[|p.reported|..] == Keep(p.queue, For(dst));
  }

  /** Offering an entry to a purged queue: one with the packet and destination of an entry there is refused
      and nothing changes; any other is put last, to expire a timeout from now, the first entry
      being reported and dropped when the queue is exactly as long as its bound. */
  lemma EnqueueExact(s: State, e: Entry, now: int)
    ensures var p, t := Purged(s, now), Step(s, Enqueue(e), now);
            var duplicate := exists i :: 0 <= i < |p.queue| && p.queue[i].uid == e.uid && p.queue[i].dst == e.dst;
            && (duplicate ==> t == p)
            && (!duplicate ==>
                 && SettingsKept(p, t) && t.clock == now && t.dequeued == p.dequeued
                 && t.accepted == p.accepted + [Entry(e.uid, e.dst, now + s.timeout)]
                 && (|p.queue| != p.maxLen || p.queue == [] ==>
                      t.queue == p.queue + [Entry(e.uid, e.dst, now + s.timeout)] && t.reported == p.reported)
                 && (|p.queue| == p.maxLen && p.queue != [] ==>
                      && t.queue == p.queue[1..] + [Entry(e.uid, e.dst, now + s.timeout)]
                      && t.reported == p.reported + [p.queue[0]]))
  {
    var p := Purged(s, now);
    assert HasKey(p.queue, e) <==>
        exists i :: 0 <= i < |p.queue| && p.queue[i].uid == e.uid && p.queue[i].dst == e.dst by {
      if i :| 0 <= i < |p.queue| && p.queue[i].uid == e.uid && p.queue[i].dst == e.dst {
        assert SameKey(p.queue[i], e);
      }
    }
  }

  /** Dequeuing from a purged queue: without an entry for the destination nothing changes, otherwise the
      first one leaves the queue. */
  lemma DequeueExact(s: State, dst: nat, now: int, i: nat)
    ensures var p, t := Purged(s, now), Step(s, Dequeue(dst), now);
            && ((forall k :: 0 <= k < |p.queue| ==> p.queue[k].dst != dst) ==> t == p)
            && (i < |p.queue| && p.queue[i].dst == dst && (forall k :: 0 <= k < i ==> p.queue[k].dst != dst) ==>
                 && SettingsKept(p, t) && t.clock == now && t.accepted == p.accepted && t.reported == p.reported
                 && t.dequeued == p.dequeued + [p.queue[i]]
                 && t.queue == p.queue[..i] + p.queue[i + 1..])
  {
    var p := Purged(s, now);
    var first := FirstFor(p.queue, dst);
    if i < |p.queue| && p.queue[i].dst == dst && forall k :: 0 <= k < i ==> p.queue[k].dst != dst {
      assert first == i;
    }
  }
}
