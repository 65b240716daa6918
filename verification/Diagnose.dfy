/** Diagnosis: change points of the step durations are mapped to ranges of raw trace lines,
    and a range is searched for a window of lines in which another node lags behind. */
module Diagnose {
  import opened Common
  import opened StepDetector
  import StepTheorems
  import opened Changepoints

  /** One parsed line of a trace; `enterExit` is 0 on entry. */
  datatype RawLine<K> = RawLine(ts: int, kind: K, enterExit: int)

  /** The entry events, as the step detector reads them. */
  function EntryEvents<K>(lines: seq<RawLine<K>>): (events: seq<Event<K>>)
    ensures |events| <= |lines|
  {
    if lines == [] then []
    else
      var last := lines[|lines| - 1];
      EntryEvents(lines[..|lines| - 1]) + if last.enterExit == 0 then [Event(last.ts, last.kind)] else []
  }

  function AllTimes<K>(lines: seq<RawLine<K>>): (ts: seq<int>)
    ensures |ts| == |lines| && forall i :: 0 <= i < |ts| ==> ts[i] == lines[i].ts
  {
    if lines == [] then [] else AllTimes(lines[..|lines| - 1]) + [lines[|lines| - 1].ts]
  }

  ghost predicate Sorted(ts: seq<int>) {
    forall i, j :: 0 <= i < j < |ts| ==> ts[i] <= ts[j]
  }

  /** Event times are sorted and all occur among the raw times. */
  ghost predicate SteppedIn<K>(events: seq<Event<K>>, all: seq<int>) {
    && StepTheorems.SortedByTime(events)
    && forall i :: 0 <= i < |events| ==> events[i].ts in all
  }

  lemma {:induction false} EventTimes<K>(lines: seq<RawLine<K>>)
    requires Sorted(AllTimes(lines))
    ensures SteppedIn(EntryEvents(lines), AllTimes(lines))
  {
    if lines == [] {
    } else {
      var init, last := lines[..|lines| - 1], lines[|lines| - 1];
      EventTimes(init);
      var before, all := EntryEvents(init), AllTimes(lines);
      assert all == AllTimes(init) + [last.ts];
      forall i | 0 <= i < |before| ensures before[i].ts in all && before[i].ts <= last.ts {
        var k :| 0 <= k < |init| && AllTimes(init)[k] == before[i].ts;
        assert all[k] == before[i].ts;
      }
    }
  }

  // ----- From steps to raw lines

  /** The first line at or after the step's start; the last line when there is none. */
  ghost predicate IsRawLine(stepIdx: nat, stepTimes: seq<int>, all: seq<int>, r: int) {
    if stepIdx >= |stepTimes| then r == |all| - 1
    else
      var target := stepTimes[stepIdx];
      || (0 <= r < |all| && all[r] >= target && forall i :: 0 <= i < r ==> all[i] < target)
      || (r == |all| - 1 && forall i :: 0 <= i < |all| ==> all[i] < target)
  }

  method StepToRawLine(stepIdx: nat, stepTimes: seq<int>, all: seq<int>) returns (r: int)
    ensures IsRawLine(stepIdx, stepTimes, all, r)
  {
    if stepIdx >= |stepTimes| {
      return |all| - 1;
    }
    var target := stepTimes[stepIdx];
    for i := 0 to |all|
      invariant forall j :: 0 <= j < i ==> all[j] < target
    {
      if all[i] >= target {
        return i;
      }
    }
    return |all| - 1;
  }

  /** Later steps never map to earlier lines. */
  lemma RawLineMonotone(a: nat, b: nat, stepTimes: seq<int>, all: seq<int>, ra: int, rb: int)
    requires a <= b && Sorted(stepTimes) && IsRawLine(a, stepTimes, all, ra) && IsRawLine(b, stepTimes, all, rb)
    ensures ra <= rb < |all| || all == []
    ensures -1 <= ra <= rb
  {
  }

  /** An existing step maps to a line that carries its own start time. */
  lemma RawLineExact(stepIdx: nat, stepTimes: seq<int>, all: seq<int>, r: int)
    requires stepIdx < |stepTimes| && Sorted(all) && stepTimes[stepIdx] in all && IsRawLine(stepIdx, stepTimes, all, r)
    ensures 0 <= r < |all| && all[r] == stepTimes[stepIdx]
  {
    var k :| 0 <= k < |all| && all[k] == stepTimes[stepIdx];
    assert r < k ==> all[r] <= all[k];
  }

  ghost predicate StartTimes<K>(steps: seq<Step<K>>, stepTimes: seq<int>) {
    |stepTimes| == |steps| && forall t :: 0 <= t < |steps| ==> stepTimes[t] == steps[t].startNs
  }

  /** The steps are those detected in the entry events of the trace, with the default limits. */
  ghost predicate StepsOf<K>(lines: seq<RawLine<K>>, steps: seq<Step<K>>) {
    var events := EntryEvents(lines);
    Renders(events, Kinds(events), StepSpans(events, None, None), steps)
  }

  /** Steps detected in a trace sorted by time have sorted start times. */
  lemma {:induction false} StepTimesSorted<K>(lines: seq<RawLine<K>>, steps: seq<Step<K>>, stepTimes: seq<int>)
    requires Sorted(AllTimes(lines)) && StepsOf(lines, steps) && StartTimes(steps, stepTimes)
    ensures Sorted(stepTimes)
  {
    var events := EntryEvents(lines);
    EventTimes(lines);
    StepTheorems.StepsAreRuns(events, None, None);
    StepTheorems.StepsInTime(events, StepSpans(events, None, None), steps);
    forall a, b | 0 <= a < b < |stepTimes| ensures stepTimes[a] <= stepTimes[b] {
      assert steps[a].startNs <= steps[a].endNs <= steps[b].startNs;
    }
  }

  /** End to end: on a trace sorted by time, the steps detected in it have sorted start
      times, and each maps to a raw line carrying exactly its start time. */
  lemma {:induction false} StepsMapExactly<K>(lines: seq<RawLine<K>>, steps: seq<Step<K>>, stepTimes: seq<int>,
                                              t: nat, r: int)
    requires Sorted(AllTimes(lines)) && StepsOf(lines, steps) && StartTimes(steps, stepTimes)
    requires t < |steps| && IsRawLine(t, stepTimes, AllTimes(lines), r)
    ensures Sorted(stepTimes) && 0 <= r < |lines| && lines[r].ts == steps[t].startNs
  {
    var events := EntryEvents(lines);
    var spans := StepSpans(events, None, None);
    EventTimes(lines);
    StepTimesSorted(lines, steps, stepTimes);
    assert steps[t] == RenderStep(events, Kinds(events), spans[t], t);
    RawLineExact(t, stepTimes, AllTimes(lines), r);
  }

  // ----- Ranges

  datatype Range = Range(start: int, end: int)

  function FirstIndex(points: seq<ChangePoint>, x: ChangePoint): (i: nat)
    requires x in points
    ensures i < |points| && points[i] == x && forall j :: 0 <= j < i ==> points[j] != x
  {
    if points[0] == x then 0
    else
      assert points == [points[0]] + points[1..];
      FirstIndex(points[1..], x) + 1
  }

  /** The line range examined for change point `t`. */
  ghost predicate IsRange(points: seq<ChangePoint>, stepTimes: seq<int>, all: seq<int>, minLen: nat, t: nat, r: Range)
    requires t < |points|
  {
    && IsRawLine(points[t].step, stepTimes, all, r.start)
    && exists next :: r.end == Min(next, minLen)
         && if t + 1 < |points| then IsRawLine(points[t + 1].step, stepTimes, all, next) else next == minLen
  }

  /** The ranges of successive change points; each looks up its own position in the list. */
  method LineRanges(points: seq<ChangePoint>, stepTimes: seq<int>, all: seq<int>, minLen: nat)
      returns (ranges: seq<Range>)
    requires forall t, u :: 0 <= t < u < |points| ==> points[t].step < points[u].step
    ensures |ranges| == |points|
    ensures forall t :: 0 <= t < |ranges| ==> IsRange(points, stepTimes, all, minLen, t, ranges[t])
  {
    ranges := [];
    for t := 0 to |points|
      invariant |ranges| == t && forall u :: 0 <= u < t ==> IsRange(points, stepTimes, all, minLen, u, ranges[u])
    {
      var start := StepToRawLine(points[t].step, stepTimes, all);
      var idx := FirstIndex(points, points[t]);
      assert idx == t;
      var end: int;
      if idx + 1 < |points| {
        end := StepToRawLine(points[idx + 1].step, stepTimes, all);
      } else {
        end := minLen;
      }
      ghost var next := end;
      end := Min(end, minLen);
      assert IsRange(points, stepTimes, all, minLen, t, Range(start, end));
      ranges := ranges + [Range(start, end)];
    }
  }

  /** The ranges come in order and do not overlap. */
  lemma {:induction false} RangesInOrder(points: seq<ChangePoint>, stepTimes: seq<int>, all: seq<int>, minLen: nat,
                                         t: nat, u: nat, rt: Range, ru: Range)
    requires Sorted(stepTimes) && forall a, b :: 0 <= a < b < |points| ==> points[a].step < points[b].step
    requires t < u < |points|
    requires IsRange(points, stepTimes, all, minLen, t, rt) && IsRange(points, stepTimes, all, minLen, u, ru)
    ensures rt.end <= ru.start && rt.start <= ru.start
  {
    var next :| rt.end == Min(next, minLen) && IsRawLine(points[t + 1].step, stepTimes, all, next);
    assert points[t + 1].step <= points[u].step;
    RawLineMonotone(points[t + 1].step, points[u].step, stepTimes, all, next, ru.start);
    RawLineMonotone(points[t].step, points[u].step, stepTimes, all, rt.start, ru.start);
  }

  /** End to end: the ranges of the reported change points, on the lines of a trace sorted by
      time, are disjoint and in order; nothing else is assumed of steps or change points. */
  lemma {:induction false} DiagnosedRangesInOrder<K>(lines: seq<RawLine<K>>, steps: seq<Step<K>>, stepTimes: seq<int>,
                                                     data: seq<real>, p: Params, points: seq<ChangePoint>,
                                                     minLen: nat, t: nat, u: nat, rt: Range, ru: Range)
    requires Sorted(AllTimes(lines)) && StepsOf(lines, steps) && StartTimes(steps, stepTimes)
    requires t < u < |points|
    requires IsRange(points, stepTimes, AllTimes(lines), minLen, t, rt)
    requires IsRange(points, stepTimes, AllTimes(lines), minLen, u, ru)
    ensures points == Reported(data, p) ==> rt.end <= ru.start && rt.start <= ru.start
  {
    if points == Reported(data, p) {
      StepTimesSorted(lines, steps, stepTimes);
      ReportedIncrease(data, p);
      RangesInOrder(points, stepTimes, AllTimes(lines), minLen, t, u, rt, ru);
    }
  }

  /** Every range ends by the end of the shortest trace, and the last one there. */
  lemma RangeEnds(points: seq<ChangePoint>, stepTimes: seq<int>, all: seq<int>, minLen: nat, t: nat, r: Range)
    requires t < |points| && IsRange(points, stepTimes, all, minLen, t, r)
    ensures r.end <= minLen && (t == |points| - 1 ==> r.end == minLen)
    ensures t < |points| - 1 ==> r.end == minLen || IsRawLine(points[t + 1].step, stepTimes, all, r.end)
  {
  }

  /** Every two ranges are disjoint and in order. */
  ghost predicate InOrder(ranges: seq<Range>) {
    forall t, u :: 0 <= t < u < |ranges| ==> ranges[t].end <= ranges[u].start && ranges[t].start <= ranges[u].start
  }

  method StepStarts<K>(steps: seq<Step<K>>) returns (times: seq<int>)
    ensures StartTimes(steps, times)
  {
    times := [];
    for i := 0 to |steps|
      invariant |times| == i && forall t :: 0 <= t < i ==> times[t] == steps[t].startNs
    {
      times := times + [steps[i].startNs];
    }
  }

  /** From the lines of the base trace and the step durations to the ranges to examine. */
  method DiagnosedRanges<K(==)>(lines: seq<RawLine<K>>, data: seq<real>, p: Params, minLen: nat)
      returns (points: seq<ChangePoint>, steps: seq<Step<K>>, stepTimes: seq<int>, ranges: seq<Range>)
    ensures points == Reported(data, p) && StepsOf(lines, steps) && StartTimes(steps, stepTimes)
    ensures |ranges| == |points|
    ensures forall t :: 0 <= t < |ranges| ==> IsRange(points, stepTimes, AllTimes(lines), minLen, t, ranges[t])
    ensures Sorted(AllTimes(lines)) ==> InOrder(ranges)
  {
    points := DetectChangepoints(data, p);
    steps := DetectSteps(EntryEvents(lines), None, None);
    stepTimes := StepStarts(steps);
    ReportedIncrease(data, p);
    ranges := LineRanges(points, stepTimes, AllTimes(lines), minLen);
    if Sorted(AllTimes(lines)) {
      forall t, u | 0 <= t < u < |ranges|
        ensures ranges[t].end <= ranges[u].start && ranges[t].start <= ranges[u].start
      {
        DiagnosedRangesInOrder(lines, steps, stepTimes, data, p, points, minLen, t, u, ranges[t], ranges[u]);
      }
    }
  }

  // ----- A lagging node

  /** Sample `i` lags by more than the limit, in microseconds. */
  predicate Lags(base: seq<int>, other: seq<int>, limit: real, i: nat)
    requires i < |base| && i < |other|
  {
    (other[i] - base[i]) as real / 1000.0 > limit
  }

  /** How many of the samples `[a, b)` lag. */
  ghost function LagCount(base: seq<int>, other: seq<int>, limit: real, a: nat, b: nat): nat
    requires a <= b <= |base| && b <= |other|
    decreases b
  {
    if a == b then 0 else LagCount(base, other, limit, a, b - 1) + if Lags(base, other, limit, b - 1) then 1 else 0
  }

  lemma {:induction false} LagCountFront(base: seq<int>, other: seq<int>, limit: real, a: nat, b: nat)
    requires a < b <= |base| && b <= |other|
    ensures LagCount(base, other, limit, a, b)
         == LagCount(base, other, limit, a + 1, b) + if Lags(base, other, limit, a) then 1 else 0
    decreases b
  {
    if a + 1 >= b {
    } else {
      LagCountFront(base, other, limit, a, b - 1);
    }
  }

  /** Where the samples that can be compared end. */
  function ComparedEnd(base: seq<int>, other: seq<int>, start: nat, end: int): (hi: nat)
    ensures hi >= start && (hi > start ==> hi <= |base| && hi <= |other| && hi <= end)
  {
    Max(start, Min(end, Min(|base|, |other|)))
  }

  /** The `n` samples from `s` on reach the threshold. */
  ghost predicate Reaches(base: seq<int>, other: seq<int>, limit: real, threshold: real, s: nat, n: nat)
    requires s + n <= |base| && s + n <= |other|
  {
    LagCount(base, other, limit, s, s + n) as real >= threshold
  }

  /** The share of lagging samples in a range, in percent. */
  function Share(lagging: nat, segLen: int): real {
    lagging as real / Max(segLen, 1) as real * 100.0
  }

  /** How many of the samples of a window have to lag. */
  function Threshold(n: nat, percent: real): real {
    n as real * percent / 100.0
  }

  /** The naive definition: a short range is judged by its overall ratio; otherwise some
      full window must reach the threshold, or all that could be compared when that is
      less than a window. */
  ghost predicate Slow(base: seq<int>, other: seq<int>, start: nat, end: int, n: nat, percent: real, limit: real)
    requires n >= 1
  {
    var hi := ComparedEnd(base, other, start, end);
    var total := if hi == start then 0 else LagCount(base, other, limit, start, hi);
    var threshold := Threshold(n, percent);
    if end - start < n then Share(total, end - start) >= percent
    else if hi - start < n then total as real >= threshold
    else exists s: nat :: start <= s && s + n <= hi && Reaches(base, other, limit, threshold, s, n)
  }

  /** The samples that can be compared, 1 for a lagging one. */
  method Compare(base: seq<int>, other: seq<int>, start: nat, hi: nat, limit: real) returns (over: seq<int>)
    requires start <= hi && (start < hi ==> hi <= |base| && hi <= |other|)
    ensures |over| == hi - start
    ensures forall j :: 0 <= j < |over| ==> over[j] == if Lags(base, other, limit, start + j) then 1 else 0
  {
    over := [];
    for i := start to hi
      invariant |over| == i - start
      invariant forall j :: 0 <= j < |over| ==> over[j] == if Lags(base, other, limit, start + j) then 1 else 0
    {
      over := over + [if Lags(base, other, limit, i) then 1 else 0];
    }
  }

  /** Slide a window over the samples, adding the one that enters and taking off the one
      that leaves; the first window starts at `start`. */
  method Slide(over: seq<int>, ghost base: seq<int>, ghost other: seq<int>, ghost limit: real, ghost start: nat,
               n: nat, first: int, threshold: real) returns (slow: bool)
    requires 1 <= n <= |over| && start + |over| <= |base| && start + |over| <= |other|
    requires forall j :: 0 <= j < |over| ==> over[j] == if Lags(base, other, limit, start + j) then 1 else 0
    requires first == LagCount(base, other, limit, start, start + n)
    ensures slow <==>
        exists s: nat :: start <= s && s + n <= start + |over| && Reaches(base, other, limit, threshold, s, n)
  {
    var windowCount := first;
    for i := n to |over|
      invariant windowCount == LagCount(base, other, limit, start + i - n, start + i)
      invariant forall s: nat :: start <= s < start + i - n ==> !Reaches(base, other, limit, threshold, s, n)
    {
      if windowCount as real >= threshold {
        assert Reaches(base, other, limit, threshold, start + i - n, n);
        return true;
      }
      LagCountFront(base, other, limit, start + i - n, start + i + 1);
      windowCount := windowCount + over[i] - over[i - n];
    }
    slow := windowCount as real >= threshold;
    assert slow <==> Reaches(base, other, limit, threshold, start + |over| - n, n);
  }

  /** The rolling count over a range of at least one window. */
  method DetectRolling(base: seq<int>, other: seq<int>, start: nat, hi: nat, n: nat, threshold: real, limit: real)
      returns (slow: bool)
    requires n >= 1 && start <= hi && (start < hi ==> hi <= |base| && hi <= |other|)
    ensures hi - start < n ==>
              (slow <==> (if hi == start then 0 else LagCount(base, other, limit, start, hi)) as real >= threshold)
    ensures hi - start >= n ==>
              (slow <==> exists s: nat :: start <= s && s + n <= hi && Reaches(base, other, limit, threshold, s, n))
  {
    var over := Compare(base, other, start, hi, limit);
    var windowCount := 0;
    for i := 0 to Min(n, |over|)
      invariant windowCount == if i == 0 then 0 else LagCount(base, other, limit, start, start + i)
    {
      windowCount := windowCount + over[i];
    }
    if |over| < n {
      return windowCount as real >= threshold;
    }
    slow := Slide(over, base, other, limit, start, n, windowCount, threshold);
  }

  /** A range shorter than the window: the share of its lagging samples decides. */
  method DetectShortRange(base: seq<int>, other: seq<int>, start: nat, hi: nat, segLen: int, percent: real, limit: real)
      returns (slow: bool)
    requires start <= hi && (start < hi ==> hi <= |base| && hi <= |other|)
    ensures slow <==> Share(if hi == start then 0 else LagCount(base, other, limit, start, hi), segLen) >= percent
  {
    var count := 0;
    for i := start to hi
      invariant count == if i == start then 0 else LagCount(base, other, limit, start, i)
    {
      if Lags(base, other, limit, i) {
        count := count + 1;
      }
    }
    return Share(count, segLen) >= percent;
  }

  method DetectSlowInRange(base: seq<int>, other: seq<int>, start: nat, end: int, n: nat, percent: real, limit: real)
      returns (slow: bool)
    requires n >= 1
    ensures slow <==> Slow(base, other, start, end, n, percent, limit)
  {
    var segLen := end - start;
    var hi := ComparedEnd(base, other, start, end);
    if segLen < n {
      slow := DetectShortRange(base, other, start, hi, segLen, percent, limit);
      return;
    }
    slow := DetectRolling(base, other, start, hi, n, Threshold(n, percent), limit);
  }

  // ----- The same in plain numbers

  /** The samples of `[a, b)` at which the other node is behind by more than the limit of
      microseconds, the times being in nanoseconds. */
  ghost function Late(base: seq<int>, other: seq<int>, limit: real, a: nat, b: nat): set<nat>
    requires b <= |base| && b <= |other|
  {
    set i: nat | a <= i < b && (other[i] - base[i]) as real > limit * 1000.0
  }

  lemma {:induction false} LagCounted(base: seq<int>, other: seq<int>, limit: real, a: nat, b: nat)
    requires a <= b <= |base| && b <= |other|
    ensures LagCount(base, other, limit, a, b) == |Late(base, other, limit, a, b)|
    decreases b
  {
    if a == b {
      assert Late(base, other, limit, a, b) == {};
    } else {
      LagCounted(base, other, limit, a, b - 1);
      var before, all := Late(base, other, limit, a, b - 1), Late(base, other, limit, a, b);
      if Lags(base, other, limit, b - 1) {
        assert all == before + {b - 1};
      } else {
        assert all == before;
      }
    }
  }

  /** This percentage of `n` samples is late. */
  ghost predicate LateEnough(late: nat, n: int, percent: real) {
    late as real * 100.0 >= percent * n as real
  }

  lemma ShareReaches(late: nat, segLen: int, percent: real)
    ensures Share(late, segLen) >= percent <==> LateEnough(late, if segLen >= 1 then segLen else 1, percent)
  {
    var n := if segLen >= 1 then segLen else 1;
    var part := late as real / n as real;
    assert part * n as real == late as real;
    assert part * 100.0 >= percent <==> part * 100.0 * n as real >= percent * n as real;
  }

  lemma ThresholdReached(late: nat, n: nat, percent: real)
    ensures late as real >= Threshold(n, percent) <==> LateEnough(late, n, percent)
  {
  }

  /** The compared samples end with the range or with the shorter trace. */
  lemma ComparedExact(base: seq<int>, other: seq<int>, start: nat, end: int, i: nat)
    ensures start <= i < ComparedEnd(base, other, start, end) <==>
              start <= i < end && i < |base| && i < |other|
  {
  }

  /** A node is slow in a range shorter than a window when the given percentage of the range is late. */
  lemma ShortRangeExact(base: seq<int>, other: seq<int>, start: nat, end: int, n: nat, percent: real, limit: real)
    requires n >= 1 && end - start < n
    ensures var hi := ComparedEnd(base, other, start, end);
            var late := if hi == start then 0 else |Late(base, other, limit, start, hi)|;
            Slow(base, other, start, end, n, percent, limit) <==>
              LateEnough(late, if end - start >= 1 then end - start else 1, percent)
  {
    var hi := ComparedEnd(base, other, start, end);
    if hi > start {
      LagCounted(base, other, limit, start, hi);
    }
    var late := if hi == start then 0 else |Late(base, other, limit, start, hi)|;
    ShareReaches(late, end - start, percent);
  }

  /** In a longer range with fewer samples to compare, when that percentage of a window is late. */
  lemma FewSamplesExact(base: seq<int>, other: seq<int>, start: nat, end: int, n: nat, percent: real, limit: real)
    requires n >= 1 && end - start >= n && ComparedEnd(base, other, start, end) - start < n
    ensures var hi := ComparedEnd(base, other, start, end);
            var late := if hi == start then 0 else |Late(base, other, limit, start, hi)|;
            Slow(base, other, start, end, n, percent, limit) <==> LateEnough(late, n, percent)
  {
    var hi := ComparedEnd(base, other, start, end);
    if hi > start {
      LagCounted(base, other, limit, start, hi);
    }
    ThresholdReached(if hi == start then 0 else LagCount(base, other, limit, start, hi), n, percent);
  }

  /** Some whole window of compared samples is late enough. */
  ghost predicate WindowLate(base: seq<int>, other: seq<int>, limit: real, n: nat, percent: real, s: nat)
    requires s + n <= |base| && s + n <= |other|
  {
    LateEnough(|Late(base, other, limit, s, s + n)|, n, percent)
  }

  /** Otherwise when some window of `n` compared samples is late enough. */
  lemma WindowsExact(base: seq<int>, other: seq<int>, start: nat, end: int, n: nat, percent: real, limit: real)
    requires n >= 1 && ComparedEnd(base, other, start, end) - start >= n
    ensures Slow(base, other, start, end, n, percent, limit) <==>
              exists s: nat :: start <= s && s + n <= ComparedEnd(base, other, start, end)
                && WindowLate(base, other, limit, n, percent, s)
  {
    var hi := ComparedEnd(base, other, start, end);
    forall s: nat | start <= s && s + n <= hi
      ensures Reaches(base, other, limit, Threshold(n, percent), s, n) <==>
                WindowLate(base, other, limit, n, percent, s)
    {
      LagCounted(base, other, limit, s, s + n);
      ThresholdReached(LagCount(base, other, limit, s, s + n), n, percent);
    }
  }

  /** These are the positions of the entry lines, and the events are those lines. */
  ghost predicate EntriesAt<K>(lines: seq<RawLine<K>>, at: seq<nat>) {
    && |at| == |EntryEvents(lines)|
    && (forall k :: 0 <= k < |at| ==>
         && at[k] < |lines| && lines[at[k]].enterExit == 0
         && EntryEvents(lines)[k] == Event(lines[at[k]].ts, lines[at[k]].kind))
    && (forall k, l :: 0 <= k < l < |at| ==> at[k] < at[l])
    && (forall i :: 0 <= i < |lines| && lines[i].enterExit == 0 ==> i in at)
  }

  /** The events read are exactly the entry lines, in their order. */
  lemma {:induction false} EntriesExact<K>(lines: seq<RawLine<K>>) returns (at: seq<nat>)
    ensures EntriesAt(lines, at)
  {
    if lines == [] {
      at := [];
    } else {
      var init, last := lines[..|lines| - 1], lines[|lines| - 1];
      var before := EntriesExact(init);
      at := before + if last.enterExit == 0 then [|init|] else [];
      assert forall i :: 0 <= i < |init| ==> lines[i] == init[i];
      forall i | 0 <= i < |lines| && lines[i].enterExit == 0 ensures i in at {
        if i < |init| {
          assert i in before;
        } else {
          assert at[|before|] == i;
        }
      }
    }
  }
}
