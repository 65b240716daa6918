/** What step detection reports, stated about the trace itself: which period a scan finds,
    how far a run goes, where the next scan starts, and what the reported steps carry. */
module StepReports {
  import opened Common
  import opened Division
  import opened Words
  import opened StepDetector
  import opened StepTheorems
  import opened StepRecovery

  // ----- Which period a scan finds

  /** Among the `l` events from `start` on, any two that are `p` apart are of the same kind. */
  ghost predicate Repeating<T>(w: seq<T>, start: nat, l: nat, p: nat) {
    forall j, i {:trigger w[j], w[i]} :: start + p <= j < start + l <= |w| && i == j - p ==> w[j] == w[i]
  }

  /** Their smallest period is `p`, it is at least 2, and two periods fit. */
  ghost predicate Doubled<T>(w: seq<T>, start: nat, l: nat, p: nat) {
    && 2 <= p && 2 * p <= l && start + l <= |w|
    && Repeating(w, start, l, p) && forall q :: 0 < q < p ==> !Repeating(w, start, l, q)
  }

  lemma PeriodInPlace<T>(w: seq<T>, start: nat, l: nat, p: nat)
    requires start + l <= |w| && 0 < p <= l
    ensures HasPeriod(w[start..start + l], p) <==> Repeating(w, start, l, p)
  {
    var s := w[start..start + l];
    if HasPeriod(s, p) {
      forall j, i {:trigger w[j], w[i]} | start + p <= j < start + l && i == j - p ensures w[j] == w[i] {
        assert s[j - start] == w[j] && s[i - start] == w[i];
      }
    }
    if Repeating(w, start, l, p) {
      forall i, j | 0 <= i < j < |s| && j - i == p ensures s[i] == s[j] {
        assert w[start + j] == w[start + i];
      }
    }
  }

  lemma DoubledIsMinimal<T>(w: seq<T>, start: nat, l: nat, p: nat)
    requires start + l <= |w| && 2 <= p && 2 * p <= l
    ensures Doubled(w, start, l, p) <==> MinimalPeriod(w[start..start + l]) == p
  {
    var s := w[start..start + l];
    MinimalPeriodIsMinimal(s);
    forall q | 0 < q <= l ensures HasPeriod(s, q) <==> Repeating(w, start, l, q) {
      PeriodInPlace(w, start, l, q);
    }
    if Doubled(w, start, l, p) {
      assert MinimalPeriod(s) >= p ==> MinimalPeriod(s) == p;
    }
  }

  lemma StopsWhereDoubled<T>(w: seq<T>, start: nat, l: nat, warmup: int)
    requires start + l <= |w|
    ensures Stops(w[start..start + l], warmup) <==> warmup < l && exists p :: Doubled(w, start, l, p)
  {
    var s := w[start..start + l];
    if Stops(s, warmup) {
      DoubledIsMinimal(w, start, l, MinimalPeriod(s));
    }
    if p :| Doubled(w, start, l, p) {
      DoubledIsMinimal(w, start, l, p);
    }
  }

  /** A scan past the warm-up finds `p` at `l` events, and nothing at fewer. */
  ghost predicate FoundAt<T>(w: seq<T>, start: nat, warmup: int, maxScan: int, l: nat, p: nat) {
    && warmup < l <= maxScan && Doubled(w, start, l, p)
    && forall m: nat, q: nat :: warmup < m < l ==> !Doubled(w, start, m, q)
  }

  /** A scan from `start` finds the period `p`. */
  ghost predicate Finds<T>(w: seq<T>, start: nat, warmup: int, maxScan: int, p: nat) {
    exists l :: FoundAt(w, start, warmup, maxScan, l, p)
  }

  lemma SliceOfSlice<T>(w: seq<T>, start: nat, n: nat, l: nat)
    requires start + n <= |w| && l <= n
    ensures w[start..start + n][..l] == w[start..start + l]
  {
    var x, y := w[start..start + n][..l], w[start..start + l];
    assert forall i :: 0 <= i < l ==> x[i] == w[start + i] && y[i] == w[start + i];
  }

  lemma WindowSlice<T>(w: seq<T>, start: nat, maxScan: int, l: nat)
    requires l <= |Window(w, start, maxScan)|
    ensures start + l <= |w| || l == 0
    ensures l > 0 ==> l <= maxScan && Window(w, start, maxScan)[..l] == w[start..start + l]
  {
    var t := Window(w, start, maxScan);
    if l > 0 {
      assert t == w[start..start + |t|];
      SliceOfSlice(w, start, |t|, l);
    }
  }

  lemma StoppedWhereFound<T>(w: seq<T>, start: nat, warmup: int, maxScan: int, l: nat, p: nat)
    requires FoundAt(w, start, warmup, maxScan, l, p)
    ensures Detection(w, start, warmup, maxScan) == Some(p)
  {
    var t := Window(w, start, maxScan);
    assert l <= |t|;
    WindowSlice(w, start, maxScan, l);
    StopsWhereDoubled(w, start, l, warmup);
    DoubledIsMinimal(w, start, l, p);
    forall m {:trigger t[..m]} | 0 <= m < l ensures !Stops(t[..m], warmup) {
      if m > 0 {
        WindowSlice(w, start, maxScan, m);
        StopsWhereDoubled(w, start, m, warmup);
      }
    }
    FirstStopReached(t, warmup, 0, l);
  }

  /** The period a scan finds, in terms of the trace: that of the first stretch from `start`,
      longer than the warm-up and no longer than the scan, that is two or more copies of its
      smallest period, a period of at least two events. */
  lemma DetectionExact<T>(w: seq<T>, start: nat, warmup: int, maxScan: int, p: nat)
    ensures Detection(w, start, warmup, maxScan) == Some(p) <==> Finds(w, start, warmup, maxScan, p)
  {
    var t := Window(w, start, maxScan);
    var first := FirstStop(t, warmup, 0);
    FirstStopIsFirst(t, warmup, 0);
    forall l | 0 < l <= |t|
      ensures start + l <= |w| && l <= maxScan
      ensures Stops(t[..l], warmup) <==> warmup < l && exists q :: Doubled(w, start, l, q)
    {
      WindowSlice(w, start, maxScan, l);
      StopsWhereDoubled(w, start, l, warmup);
    }
    if Detection(w, start, warmup, maxScan) == Some(p) {
      var l := first.value;
      WindowSlice(w, start, maxScan, l);
      DoubledIsMinimal(w, start, l, p);
      forall m: nat, q: nat | warmup < m < l ensures !Doubled(w, start, m, q) {
        assert m > 0 ==> !Stops(t[..m], warmup);
      }
      assert FoundAt(w, start, warmup, maxScan, l, p);
    }
    if l :| FoundAt(w, start, warmup, maxScan, l, p) {
      StoppedWhereFound(w, start, warmup, maxScan, l, p);
    }
  }

  // ----- How far a run goes, and where the next scan starts

  lemma RunEndExact<T>(w: seq<T>, p: nat, i: nat, e: nat)
    requires 0 < p && i + p <= |w|
    ensures RunEnd(w, p, i + p) == e
       <==> i + p <= e <= |w| && Repeating(w, i, e - i, p) && (e < |w| ==> w[e] != w[e - p])
  {
    RunHasPeriod(w, p, i + p);
  }

  /** A scan from `i` finds `p`, and the run of that period ends at `e`: where an event first
      differs from the one a period before it, or at the end of the trace. */
  ghost predicate Runs<T>(w: seq<T>, warmup: int, maxScan: int, i: nat, p: nat, e: nat) {
    && Finds(w, i, warmup, maxScan, p) && i + p <= e <= |w|
    && Repeating(w, i, e - i, p) && (e < |w| ==> w[e] != w[e - p])
  }

  lemma DetectedRunExact<T>(w: seq<T>, warmup: int, maxScan: int, i: nat, p: nat, e: nat)
    ensures DetectedRun(w, warmup, maxScan, i) == Some(Run(p, e)) <==> Runs(w, warmup, maxScan, i, p, e)
  {
    DetectionExact(w, i, warmup, maxScan, p);
    if Detection(w, i, warmup, maxScan) == Some(p) {
      RunEndExact(w, p, i, e);
    }
  }

  lemma {:induction false} ResumeIs(a: nat, p: nat, e: nat)
    requires p > 0 && a <= e
    ensures Resume(a, p, e) == a + (e - a) / p * p
    decreases e - a
  {
    if a + p > e {
      QuotientRemainder(e - a, p, 0, e - a);
    } else {
      ResumeIs(a + p, p, e);
      var q := (e - a - p) / p;
      OneMore(e - a - p, p);
      assert (e - a) / p == q + 1;
      assert (q + 1) * p == q * p + p;
    }
  }

  /** Where a round at index `i` leads: a warm-up further when nothing is detected, behind the
      last whole period of the run otherwise, and to the end when the run reaches it. */
  ghost predicate Leads(n: nat, warmup: int, det: Detector, i: nat, next: int) {
    match det(i)
    case None => next == i + warmup
    case Some(r) => r.period > 0 && next == if r.end == n then n else i + (r.end - i) / r.period * r.period
  }

  /** The interval is one of the whole periods, counted from `a`, that end by `e`. */
  ghost predicate CopyIn(a: nat, p: nat, e: nat, s: Span) {
    exists t: nat :: s == Span(a + CopySpan(p, t).lo, a + CopySpan(p, t).hi) && s.hi <= e
  }

  lemma CopyCounted(m: nat, p: nat, t: nat)
    requires p > 0
    ensures CopySpan(p, t).hi <= m <==> t < m / p
  {
    var q := m / p;
    assert m == p * q + m % p;
    if t < q {
      TimesMonotone(t + 1, q, p);
      assert (t + 1) * p == t * p + p;
    } else {
      TimesMonotone(q, t, p);
    }
  }

  lemma CutMembers(a: nat, p: nat, e: nat, s: Span)
    requires p > 0 && a <= e
    ensures s in Cut(a, p, e) <==> CopyIn(a, p, e, s)
  {
    var c := Cut(a, p, e);
    CutCounts(a, p, e);
    forall t | 0 <= t < |c|
      ensures c[t] == Span(a + CopySpan(p, t).lo, a + CopySpan(p, t).hi) && CopyIn(a, p, e, c[t])
    {
      CopyCounted(e - a, p, t);
    }
    if t: nat :| s == Span(a + CopySpan(p, t).lo, a + CopySpan(p, t).hi) && s.hi <= e {
      CopyCounted(e - a, p, t);
      assert c[t] == s;
    }
  }

  /** The interval is a whole period of the run detected at `i`. */
  ghost predicate WholePeriod(det: Detector, i: nat, s: Span) {
    det(i).Some? && CopyIn(i, det(i).value.period, det(i).value.end, s)
  }

  lemma RoundLeads(n: nat, i: nat, warmup: int, det: Detector)
    requires Sound(n, det) && Advances(n, i, warmup, det) && i < n
    ensures AfterRound(n, i, warmup, det) > i && Advances(n, AfterRound(n, i, warmup, det), warmup, det)
    ensures Leads(n, warmup, det, i, AfterRound(n, i, warmup, det))
  {
    if det(i).Some? {
      ResumeIs(i, det(i).value.period, det(i).value.end);
    }
  }

  /** What the round at `i` reports. */
  lemma RoundMembers(n: nat, i: nat, warmup: int, det: Detector, s: Span)
    requires Sound(n, det) && Advances(n, i, warmup, det) && i < n
    requires AfterRound(n, i, warmup, det) > i && Advances(n, AfterRound(n, i, warmup, det), warmup, det)
    ensures s in Spans(n, i, warmup, det) <==>
              WholePeriod(det, i, s) || s in Spans(n, AfterRound(n, i, warmup, det), warmup, det)
  {
    if det(i).Some? {
      CutMembers(i, det(i).value.period, det(i).value.end, s);
    }
  }

  ghost predicate RoundAt(n: nat, warmup: int, det: Detector, at: seq<nat>, k: nat)
    requires k + 1 < |at|
  {
    at[k] < n && Leads(n, warmup, det, at[k], at[k + 1])
  }

  /** These are rounds of the machine: each but the last starts inside the trace and leads to
      the next one. */
  ghost predicate Rounds(n: nat, warmup: int, det: Detector, at: seq<nat>) {
    at != [] && at[|at| - 1] >= n && forall k :: 0 <= k < |at| - 1 ==> RoundAt(n, warmup, det, at, k)
  }

  lemma RoundsExtend(n: nat, warmup: int, det: Detector, i: nat, rest: seq<nat>)
    requires i < n && Rounds(n, warmup, det, rest) && Leads(n, warmup, det, i, rest[0])
    ensures Rounds(n, warmup, det, [i] + rest)
  {
    var at := [i] + rest;
    assert at[|at| - 1] == rest[|rest| - 1];
    forall k | 0 <= k < |at| - 1 ensures RoundAt(n, warmup, det, at, k) {
      assert at[k + 1] == rest[k];
      if k > 0 {
        assert at[k] == rest[k - 1] && RoundAt(n, warmup, det, rest, k - 1);
      }
    }
  }

  /** Some round but the last reports the interval. */
  ghost predicate ReportedBy(det: Detector, at: seq<nat>, s: Span) {
    exists k :: 0 <= k < |at| - 1 && WholePeriod(det, at[k], s)
  }

  lemma ReportedExtend(det: Detector, i: nat, rest: seq<nat>, s: Span)
    requires rest != []
    ensures ReportedBy(det, [i] + rest, s) <==> WholePeriod(det, i, s) || ReportedBy(det, rest, s)
  {
    var at := [i] + rest;
    if WholePeriod(det, i, s) {
      assert WholePeriod(det, at[0], s);
    } else if ReportedBy(det, rest, s) {
      var k :| 0 <= k < |rest| - 1 && WholePeriod(det, rest[k], s);
      assert WholePeriod(det, at[k + 1], s);
    } else {
      forall k | 0 <= k < |at| - 1 ensures !WholePeriod(det, at[k], s) {
        assert k > 0 ==> at[k] == rest[k - 1];
      }
    }
  }

  /** The rounds of the machine, without recursion: they start at `i`, each leads to the next,
      the last one to the end, and what is reported is exactly the whole periods of the runs
      they detect. */
  lemma {:induction false} RoundsExact(n: nat, i: nat, warmup: int, det: Detector) returns (at: seq<nat>)
    requires Sound(n, det) && Advances(n, i, warmup, det)
    ensures Rounds(n, warmup, det, at) && at[0] == i
    ensures forall s :: s in Spans(n, i, warmup, det) <==> ReportedBy(det, at, s)
    decreases if i < n then n - i else 0
  {
    if i >= n {
      return [i];
    }
    var next := AfterRound(n, i, warmup, det);
    RoundLeads(n, i, warmup, det);
    var rest := RoundsExact(n, next, warmup, det);
    at := [i] + rest;
    RoundsExtend(n, warmup, det, i, rest);
    forall s ensures s in Spans(n, i, warmup, det) <==> ReportedBy(det, at, s) {
      RoundMembers(n, i, warmup, det, s);
      ReportedExtend(det, i, rest, s);
    }
  }

  // ----- The reported steps

  lemma DefaultsWritten(n: nat, warmupLimit: Option<int>, windowSize: Option<int>)
    ensures warmupLimit.None? ==> WarmupOf(n, warmupLimit) == if n < 15 then 3 else if n < 250 then n / 5 else 50
    ensures warmupLimit.Some? ==> WarmupOf(n, warmupLimit) == warmupLimit.value
    ensures windowSize.None? ==>
              ScanLimit(n, warmupLimit, windowSize) ==
                WarmupOf(n, warmupLimit) + (if n < 18 then 18 else if n < 180 then n / 3 * 3 else 180)
    ensures windowSize.Some? ==>
              ScanLimit(n, warmupLimit, windowSize) == WarmupOf(n, warmupLimit) + windowSize.value * 3
  {
  }

  /** The run found at an index of the trace, by the limits in force. */
  lemma RunsExact<K>(events: seq<Event<K>>, warmupLimit: Option<int>, windowSize: Option<int>, i: nat, p: nat, e: nat)
    ensures StepDetection(events, warmupLimit, windowSize)(i) == Some(Run(p, e)) <==>
              Runs(Kinds(events), WarmupOf(|events|, warmupLimit), ScanLimit(|events|, warmupLimit, windowSize),
                   i, p, e)
  {
    var n, w := |events|, Kinds(events);
    var warmup, maxScan := WarmupOf(n, warmupLimit), ScanLimit(n, warmupLimit, windowSize);
    assert StepDetection(events, warmupLimit, windowSize)(i) == DetectedRun(w, warmup, maxScan, i);
    DetectedRunExact(w, warmup, maxScan, i, p, e);
  }

  /** A step with an equal neighbour: the one before ends where this one starts, or the one
      after starts where it ends. */
  ghost predicate Repeated<K>(spans: seq<Span>, steps: seq<Step<K>>, t: nat)
    requires t < |spans| == |steps|
  {
    || (t > 0 && spans[t - 1].hi == spans[t].lo && steps[t - 1].pattern == steps[t].pattern)
    || (t + 1 < |steps| && spans[t].hi == spans[t + 1].lo && steps[t].pattern == steps[t + 1].pattern)
  }

  /** What the reported steps carry: disjoint intervals of the trace in order, each with its
      events' kinds as a primitive pattern, its own times, and an equal neighbour. */
  lemma StepsExact<K>(events: seq<Event<K>>, warmupLimit: Option<int>, windowSize: Option<int>, steps: seq<Step<K>>)
    requires Completes(events, warmupLimit, windowSize)
    requires Renders(events, Kinds(events), StepSpans(events, warmupLimit, windowSize), steps)
    ensures var s := StepSpans(events, warmupLimit, windowSize);
            && |steps| == |s| && (forall t, u :: 0 <= t < u < |s| ==> s[t].hi <= s[u].lo)
            && forall t :: 0 <= t < |steps| ==>
                 Describes(events, s[t], t, steps[t]) && Primitive(steps[t].pattern) && Repeated(s, steps, t)
  {
    var s, w := StepSpans(events, warmupLimit, windowSize), Kinds(events);
    StepsAreRuns(events, warmupLimit, windowSize);
    forall t | 0 <= t < |steps|
      ensures Describes(events, s[t], t, steps[t]) && Primitive(steps[t].pattern) && Repeated(s, steps, t)
    {
      RenderedStep(events, s, steps, t);
      assert steps[t].pattern == w[s[t].lo..s[t].hi];
      assert Spelled(w, s, t);
    }
  }

  /** The step of copy `t` of the block: numbered, with the block as pattern, from the time of the
      copy's first event to that of the next copy's (to the last event at the end). */
  ghost predicate BlockStep<K>(events: seq<Event<K>>, block: seq<K>, t: nat, step: Step<K>) {
    var lo, hi := t * |block|, t * |block| + |block|;
    && 0 <= lo < hi <= |events|
    && step.idx == t && step.pattern == block && step.startNs == events[lo].ts
    && step.endNs == (if hi < |events| then events[hi].ts else events[|events| - 1].ts)
    && step.durationMs * 1000000.0 == (step.endNs - step.startNs) as real
  }

  /** One step per whole copy of the block. */
  ghost predicate BlockSteps<K>(events: seq<Event<K>>, block: seq<K>, steps: seq<Step<K>>)
    requires |block| > 0
  {
    |steps| == |events| / |block| && forall t :: 0 <= t < |steps| ==> BlockStep(events, block, t, steps[t])
  }

  lemma {:induction false} RecoveredStep<K>(events: seq<Event<K>>, block: seq<K>, s: Span, t: nat, step: Step<K>)
    requires s == CopySpan(|block|, t) && Describes(events, s, t, step) && step.pattern == block
    ensures BlockStep(events, block, t, step)
  {
  }

  lemma {:induction false} RecoveredSteps<K>(events: seq<Event<K>>, block: seq<K>, spans: seq<Span>,
                                             steps: seq<Step<K>>)
    requires |block| > 0 && Recovered(events, block, spans) && Renders(events, Kinds(events), spans, steps)
    ensures BlockSteps(events, block, steps)
  {
    forall t | 0 <= t < |steps| ensures BlockStep(events, block, t, steps[t]) {
      assert spans[t] == CopySpan(|block|, t);
      assert steps[t] == RenderStep(events, Kinds(events), spans[t], t);
      RenderedStep(events, spans, steps, t);
      RecoveredStep(events, block, spans[t], t, steps[t]);
    }
  }

  /** With a warm-up of nearly two blocks or more, a trace that repeats a primitive block is
      reported as one step per whole copy. */
  lemma {:induction false} BlocksReported<K>(events: seq<Event<K>>, block: seq<K>, warmup: int, window: int,
                                             steps: seq<Step<K>>)
    requires window >= 1
    requires Repeats(Kinds(events), block) && Primitive(block) && |block| >= 2
    requires 2 * |block| <= warmup + 1 <= |events|
    requires Renders(events, Kinds(events), StepSpans(events, Some(warmup), Some(window)), steps)
    ensures BlockSteps(events, block, steps)
  {
    ExactRecovery(events, block, warmup, window);
    RecoveredSteps(events, block, StepSpans(events, Some(warmup), Some(window)), steps);
  }

  /** The same with the default limits, for blocks of up to 25 events and ten copies or more. */
  lemma {:induction false} DefaultBlocksReported<K>(events: seq<Event<K>>, block: seq<K>, steps: seq<Step<K>>)
    requires Repeats(Kinds(events), block) && Primitive(block) && 2 <= |block| <= 25
    requires |events| >= 10 * |block|
    requires Renders(events, Kinds(events), StepSpans(events, None, None), steps)
    ensures BlockSteps(events, block, steps)
  {
    DefaultRecovery(events, block);
    RecoveredSteps(events, block, StepSpans(events, None, None), steps);
  }
}
