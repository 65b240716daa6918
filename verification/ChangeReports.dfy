/** What change-point detection reports, read off the data: when an alarm is raised, when it is
    confirmed, what a reported point carries, and what is found when the data jumps. */
module ChangeReports {
  import opened Common
  import opened Changepoints

  // ----- Sums of stretches of the data

  lemma StretchNext(data: seq<real>, a: nat, b: nat)
    requires a < b <= |data|
    ensures SumReal(data[a..b]) == SumReal(data[a..b - 1]) + data[b - 1]
  {
    var s := data[a..b];
    assert s[..|s| - 1] == data[a..b - 1];
  }

  /** The samples of `[a, b)` exceed the mean, in this direction and by the slack for each of them,
      by more than the alarm level. */
  ghost predicate Exceeds(data: seq<real>, norm: Norm, dir: Direction, a: nat, b: nat)
    requires a <= b <= |data|
  {
    match dir
    case Up => SumReal(data[a..b]) > Times(b - a, norm.mu + norm.k) + norm.h
    case Down => SumReal(data[a..b]) < Times(b - a, norm.mu - norm.k) - norm.h
  }

  lemma {:induction false} TermSumIsStretch(data: seq<real>, norm: Norm, a: nat, b: nat)
    requires a <= b <= |data|
    ensures TermSum(data, norm, Up, a, b) == SumReal(data[a..b]) - Times(b - a, norm.mu + norm.k)
    ensures TermSum(data, norm, Down, a, b) == Times(b - a, norm.mu - norm.k) - SumReal(data[a..b])
    decreases b
  {
    if a == b {
    } else {
      TermSumIsStretch(data, norm, a, b - 1);
      StretchNext(data, a, b);
      OnceMore(b - a, norm.mu + norm.k);
      OnceMore(b - a, norm.mu - norm.k);
      assert b - a - 1 == b - 1 - a;
    }
  }

  lemma ExceedsByTerms(data: seq<real>, norm: Norm, dir: Direction, a: nat, b: nat)
    requires a <= b <= |data|
    ensures Exceeds(data, norm, dir, a, b) <==> TermSum(data, norm, dir, a, b) > norm.h
  {
    TermSumIsStretch(data, norm, a, b);
  }

  /** An alarm is raised by the samples up to `b`, the sum having been reset last at `from`. */
  ghost predicate Alarm(data: seq<real>, norm: Norm, dir: Direction, from: nat, b: nat)
    requires from <= b <= |data|
  {
    exists a :: from <= a <= b && Exceeds(data, norm, dir, a, b)
  }

  /** The sum passes the alarm level exactly when some stretch that ends with the sample, and starts
      no earlier than the last reset, exceeds the mean by more than that level. */
  lemma AlarmExact(data: seq<real>, norm: Norm, dir: Direction, from: nat, b: nat)
    requires from <= b <= |data|
    ensures Cusum(data, norm, dir, from, b) > norm.h <==> Alarm(data, norm, dir, from, b)
  {
    var best := CusumIsPeak(data, norm, dir, from, b);
    ExceedsByTerms(data, norm, dir, best, b);
    if a :| from <= a <= b && Exceeds(data, norm, dir, a, b) {
      ExceedsByTerms(data, norm, dir, a, b);
    }
  }

  // ----- Confirmation

  /** The samples of `[a, b)` that lie beyond the threshold. */
  ghost function Beyond(data: seq<real>, threshold: real, dir: Direction, a: nat, b: nat): set<nat>
    requires b <= |data|
  {
    match dir
    case Up => set i: nat | a <= i < b && data[i] > threshold
    case Down => set i: nat | a <= i < b && data[i] < threshold
  }

  lemma OneMoreBeyond(data: seq<real>, threshold: real, dir: Direction, a: nat, b: nat)
    requires a < b <= |data|
    ensures |Beyond(data, threshold, dir, a, b)| ==
              |Beyond(data, threshold, dir, a, b - 1)| + if Crosses(dir, data[b - 1], threshold) then 1 else 0
  {
    var before, all := Beyond(data, threshold, dir, a, b - 1), Beyond(data, threshold, dir, a, b);
    forall i: nat ensures i in all <==> i in before || (i == b - 1 && Crosses(dir, data[b - 1], threshold)) {
    }
    if Crosses(dir, data[b - 1], threshold) {
      assert all == before + {b - 1};
    } else {
      assert all == before;
    }
  }

  lemma {:induction false} CrossingsCounted(data: seq<real>, threshold: real, dir: Direction, a: nat, b: nat)
    requires a <= b <= |data|
    ensures Crossings(dir, data[a..b], threshold) == |Beyond(data, threshold, dir, a, b)|
    decreases b
  {
    if a == b {
      assert Beyond(data, threshold, dir, a, b) == {};
    } else {
      CrossingsCounted(data, threshold, dir, a, b - 1);
      OneMoreBeyond(data, threshold, dir, a, b);
      var s := data[a..b];
      assert s[..|s| - 1] == data[a..b - 1];
    }
  }

  /** The window of samples `[a, b)` convinces: a fifth of them or more, or their mean, lie beyond
      the threshold. */
  ghost predicate WindowConvinces(data: seq<real>, threshold: real, dir: Direction, a: nat, b: nat)
    requires a < b <= |data|
  {
    || 5 * |Beyond(data, threshold, dir, a, b)| >= b - a
    || (dir == Up && SumReal(data[a..b]) > threshold * (b - a) as real)
    || (dir == Down && SumReal(data[a..b]) < threshold * (b - a) as real)
  }

  lemma FifthExact(m: nat, n: nat)
    requires n > 0
    ensures m as real / n as real >= 0.2 <==> 5 * m >= n
  {
    var part := m as real / n as real;
    assert part * n as real == m as real;
    assert part >= 0.2 <==> part * n as real >= 0.2 * n as real;
  }

  lemma MeanBeyond(s: seq<real>, threshold: real)
    requires s != []
    ensures Mean(s) > threshold <==> SumReal(s) > threshold * |s| as real
    ensures Mean(s) < threshold <==> SumReal(s) < threshold * |s| as real
    ensures Mean(s) * |s| as real == SumReal(s)
  {
    var mean := Mean(s);
    assert mean * |s| as real == SumReal(s);
    assert mean > threshold <==> mean * |s| as real > threshold * |s| as real;
    assert mean < threshold <==> mean * |s| as real < threshold * |s| as real;
  }

  lemma WindowExact(data: seq<real>, threshold: real, dir: Direction, a: nat, b: nat)
    requires a < b <= |data|
    ensures Convincing(dir, data[a..b], threshold) <==> WindowConvinces(data, threshold, dir, a, b)
  {
    var s := data[a..b];
    CrossingsCounted(data, threshold, dir, a, b);
    FifthExact(Crossings(dir, s, threshold), |s|);
    MeanBeyond(s, threshold);
  }

  /** An index confirms when a whole count of samples is left from it on, and the window of two counts
      from it on (or what is left) convinces. */
  lemma ConvincingExact(data: seq<real>, j: nat, threshold: real, count: nat, dir: Direction)
    requires count >= 1
    ensures ConvincingAt(data, j, threshold, count, dir) <==>
              && j + count <= |data|
              && WindowConvinces(data, threshold, dir, j, if j + 2 * count <= |data| then j + 2 * count else |data|)
  {
    if j + count <= |data| {
      WindowExact(data, threshold, dir, j, if j + 2 * count <= |data| then j + 2 * count else |data|);
    }
  }

  /** The confirmation of an alarm raised at `i`: the first index that confirms, of the five counts from
      there on, a count being at least 1. */
  lemma ConfirmExact(data: seq<real>, i: nat, threshold: real, confirmCount: int, dir: Direction, j: nat)
    ensures var count := if confirmCount >= 1 then confirmCount else 1;
            Confirm(data, i, threshold, confirmCount, dir) == Some(j) <==>
              && i <= j < i + 5 * count && ConvincingAt(data, j, threshold, count, dir)
              && forall k :: i <= k < j ==> !ConvincingAt(data, k, threshold, count, dir)
  {
    var r := Confirm(data, i, threshold, confirmCount, dir);
    if IsConfirmation(data, i, threshold, confirmCount, dir, Some(j)) {
      ConfirmationUnique(data, i, threshold, confirmCount, dir, r, Some(j));
    }
  }

  // ----- The scan of a segment

  /** What the scan does with sample `i`, the sums having been reset last at `up` and `down`: an
      upward alarm is looked at first, then a downward one; a rejected alarm resets its own sum
      behind the sample. */
  ghost predicate Passes(data: seq<real>, p: Params, norm: Norm, i: nat, up: nat, down: nat, up': nat, down': nat)
    requires up <= i && down <= i < |data|
  {
    if Alarm(data, norm, Up, up, i + 1) then
      && IsConfirmation(data, i, Threshold(norm, p, Up), p.confirmCount, Up, None) && up' == i + 1 && down' == down
    else if Alarm(data, norm, Down, down, i + 1) then
      && IsConfirmation(data, i, Threshold(norm, p, Down), p.confirmCount, Down, None) && up' == up && down' == i + 1
    else up' == up && down' == down
  }

  /** Sample `i` raises an alarm that is confirmed at `j`. */
  ghost predicate Ends(data: seq<real>, p: Params, norm: Norm, i: nat, up: nat, down: nat, j: nat, dir: Direction)
    requires up <= i && down <= i < |data|
  {
    && IsConfirmation(data, i, Threshold(norm, p, dir), p.confirmCount, dir, Some(j))
    && if dir == Up then Alarm(data, norm, Up, up, i + 1)
       else Alarm(data, norm, Down, down, i + 1) && !Alarm(data, norm, Up, up, i + 1)
  }

  ghost predicate PassedAt(data: seq<real>, p: Params, norm: Norm, first: nat, ups: seq<nat>, downs: seq<nat>, k: nat)
    requires k + 1 < |ups| == |downs| && first + k < |data|
    requires ups[k] <= first + k && downs[k] <= first + k
  {
    Passes(data, p, norm, first + k, ups[k], downs[k], ups[k + 1], downs[k + 1])
  }

  /** The scan without recursion: from the first sample on every sample is passed, the resets being
      recorded, up to one that ends the segment, or up to the end of the data. */
  ghost predicate Scanned(data: seq<real>, p: Params, norm: Norm, first: nat, ups: seq<nat>, downs: seq<nat>,
                          r: Option<(nat, Direction)>)
  {
    && |ups| == |downs| > 0 && first + |ups| - 1 <= |data|
    && (forall k :: 0 <= k < |ups| ==> ups[k] <= first + k && downs[k] <= first + k)
    && (forall k {:trigger PassedAt(data, p, norm, first, ups, downs, k)} :: 0 <= k < |ups| - 1 ==>
          PassedAt(data, p, norm, first, ups, downs, k))
    && var last := first + |ups| - 1;
       match r
       case None => last == |data|
       case Some((j, dir)) => last < |data| && Ends(data, p, norm, last, ups[|ups| - 1], downs[|ups| - 1], j, dir)
  }

  lemma PassedShift(data: seq<real>, p: Params, norm: Norm, i: nat, up: nat, down: nat, ups: seq<nat>,
                    downs: seq<nat>, k: nat)
    requires k + 1 < |ups| == |downs| && i + 1 + k < |data| && ups[k] <= i + 1 + k && downs[k] <= i + 1 + k
    requires PassedAt(data, p, norm, i + 1, ups, downs, k)
    ensures ([up] + ups)[k + 1] <= i + (k + 1) && ([down] + downs)[k + 1] <= i + (k + 1)
    ensures PassedAt(data, p, norm, i, [up] + ups, [down] + downs, k + 1)
  {
    var us, ds := [up] + ups, [down] + downs;
    assert us[k + 1] == ups[k] && ds[k + 1] == downs[k] && us[k + 2] == ups[k + 1] && ds[k + 2] == downs[k + 1];
    assert i + 1 + k == i + (k + 1);
  }

  lemma ScannedExtends(data: seq<real>, p: Params, norm: Norm, i: nat, up: nat, down: nat, ups: seq<nat>,
                       downs: seq<nat>, r: Option<(nat, Direction)>)
    requires up <= i && down <= i < |data| && Scanned(data, p, norm, i + 1, ups, downs, r)
    requires Passes(data, p, norm, i, up, down, ups[0], downs[0])
    ensures Scanned(data, p, norm, i, [up] + ups, [down] + downs, r)
  {
    var us, ds := [up] + ups, [down] + downs;
    assert us[|us| - 1] == ups[|ups| - 1] && ds[|us| - 1] == downs[|ups| - 1];
    forall k | 0 <= k < |us| ensures us[k] <= i + k && ds[k] <= i + k {
      if k > 0 {
        assert us[k] == ups[k - 1] && ds[k] == downs[k - 1];
      }
    }
    forall k | 0 <= k < |us| - 1 ensures PassedAt(data, p, norm, i, us, ds, k) {
      if k > 0 {
        assert PassedAt(data, p, norm, i + 1, ups, downs, k - 1);
        PassedShift(data, p, norm, i, up, down, ups, downs, k - 1);
      }
    }
  }

  /** What a scan finds is what passing the samples one by one finds. */
  lemma {:induction false} ScanExact(data: seq<real>, p: Params, norm: Norm, i: nat, up: nat, down: nat)
      returns (ups: seq<nat>, downs: seq<nat>)
    requires up <= i && down <= i <= |data|
    ensures Scanned(data, p, norm, i, ups, downs, Scan(data, p, norm, i, up, down))
    ensures ups[0] == up && downs[0] == down
    decreases |data| - i
  {
    var r := Scan(data, p, norm, i, up, down);
    if i == |data| {
      return [up], [down];
    }
    AlarmExact(data, norm, Up, up, i + 1);
    AlarmExact(data, norm, Down, down, i + 1);
    var rise := Confirm(data, i, Threshold(norm, p, Up), p.confirmCount, Up);
    var fall := Confirm(data, i, Threshold(norm, p, Down), p.confirmCount, Down);
    var high, low := Alarm(data, norm, Up, up, i + 1), Alarm(data, norm, Down, down, i + 1);
    if (high && rise.Some?) || (!high && low && fall.Some?) {
      return [up], [down];
    }
    var us, ds := ScanExact(data, p, norm, i + 1, if high then i + 1 else up, if !high && low then i + 1 else down);
    ScannedExtends(data, p, norm, i, up, down, us, ds, r);
    ups, downs := [up] + us, [down] + ds;
  }

  // ----- What a segment yields

  /** The squared deviations from `mu`. */
  ghost function Squares(s: seq<real>, mu: real): (r: seq<real>)
    ensures |r| == |s| && forall i :: 0 <= i < |s| ==> r[i] == (s[i] - mu) * (s[i] - mu)
  {
    if s == [] then []
    else Squares(s[..|s| - 1], mu) + [(s[|s| - 1] - mu) * (s[|s| - 1] - mu)]
  }

  lemma {:induction false} DeviationsAreSquares(s: seq<real>, mu: real)
    ensures SquaredDeviations(s, mu) == SumReal(Squares(s, mu))
  {
    if s == [] {
    } else {
      DeviationsAreSquares(s[..|s| - 1], mu);
      var all := Squares(s, mu);
      assert all[..|all| - 1] == Squares(s[..|s| - 1], mu);
    }
  }

  /** The unit of the alarm levels: the standard deviation of the baseline (of constant data a hundredth
      of the mean, or 1 when that is zero), or two hundredths of the mean, whichever is more. */
  lemma UnitExact(baseline: seq<real>, p: Params)
    requires baseline != []
    ensures var mu := Mean(baseline);
            var size := if mu < 0.0 then -mu else mu;
            var root := p.sqrt(SumReal(Squares(baseline, mu)) / |baseline| as real);
            var sigma := if root >= 0.000000001 then root else if mu == 0.0 then 1.0 else size * 0.01;
            EffectiveSigma(baseline, p) == if sigma > size * 0.02 then sigma else size * 0.02
  {
    DeviationsAreSquares(baseline, Mean(baseline));
    assert SquaredDeviations(baseline, Mean(baseline)) == SumReal(Squares(baseline, Mean(baseline)));
  }

  /** Slack and alarm level of a segment are multiples of the unit. */
  lemma LevelsExact(baseline: seq<real>, p: Params)
    requires baseline != []
    ensures NormOf(baseline, p).k == p.kFactor * EffectiveSigma(baseline, p)
    ensures NormOf(baseline, p).h == p.hFactor * EffectiveSigma(baseline, p)
    ensures NormOf(baseline, p).mu == Mean(baseline)
  {
    var unit := EffectiveSigma(baseline, p);
    assert NormOf(baseline, p) == Norm(Mean(baseline), p.kFactor * unit, p.hFactor * unit);
  }

  /** The mean, taken as often as there are samples, is their sum. */
  lemma MeanExact(s: seq<real>)
    requires s != []
    ensures Mean(s) * |s| as real == SumReal(s)
  {
  }

  /** The threshold that confirms a change: the mean, moved by the least percentage to report. */
  lemma ThresholdExact(norm: Norm, p: Params)
    ensures Threshold(norm, p, Up) == norm.mu + norm.mu * p.minPct / 100.0
    ensures Threshold(norm, p, Down) == norm.mu - norm.mu * p.minPct / 100.0
  {
  }

  /** What a change point at `j` carries: the old mean, the mean of the baseline from `j` on, and the
      change in percent of the old mean (0 when that is zero). */
  ghost predicate Carries(data: seq<real>, size: int, mu: real, j: nat, dir: Direction, c: ChangePoint)
    requires j < |data| && size >= 1
  {
    var end := if j + size <= |data| then j + size else |data|;
    && c.step == j && c.oldMean == mu && c.direction == dir
    && c.newMean * (end - j) as real == SumReal(data[j..end])
    && (mu != 0.0 ==> c.pct * mu == (c.newMean - mu) * 100.0) && (mu == 0.0 ==> c.pct == 0.0)
  }

  lemma PercentExact(newMean: real, mu: real)
    ensures mu != 0.0 ==> Percent(newMean, mu) * mu == (newMean - mu) * 100.0
    ensures mu == 0.0 ==> Percent(newMean, mu) == 0.0
  {
    if mu != 0.0 {
      var part := (newMean - mu) / mu;
      assert part * mu == newMean - mu;
      assert part * 100.0 * mu == part * mu * 100.0;
    }
  }

  lemma PointExact(data: seq<real>, p: Params, mu: real, j: nat, dir: Direction)
    requires j < |data| && p.baselineSize >= 1
    ensures Carries(data, p.baselineSize, mu, j, dir, PointAt(data, p, mu, j, dir))
  {
    var end := if j + p.baselineSize <= |data| then j + p.baselineSize else |data|;
    assert Lookahead(data, p, j) == data[j..end];
    MeanBeyond(data[j..end], 0.0);
    PercentExact(Mean(data[j..end]), mu);
  }

  /** Where the baseline of a segment ends. */
  function BaselineEnd(data: seq<real>, p: Params, segStart: nat): (end: int)
    ensures end == if segStart + p.baselineSize <= |data| then segStart + p.baselineSize else |data|
  {
    if segStart + p.baselineSize <= |data| then segStart + p.baselineSize else |data|
  }

  lemma SegmentByScan(data: seq<real>, p: Params, segStart: nat)
    requires segStart < |data|
    ensures var end := BaselineEnd(data, p, segStart);
            if end - segStart < 5 then SegmentEnd(data, p, segStart) == None
            else
              var norm := NormOf(data[segStart..end], p);
              match Scan(data, p, norm, end, end, end)
              case None => SegmentEnd(data, p, segStart) == None
              case Some((j, dir)) => SegmentEnd(data, p, segStart) == Some(PointAt(data, p, norm.mu, j, dir))
  {
    var end := BaselineEnd(data, p, segStart);
    if end - segStart >= 5 {
      assert data[segStart..end] == Lookahead(data, p, segStart);
    }
  }

  /** What the segment from `segStart` on yields: nothing when fewer than five samples set its
      baseline; otherwise what scanning the samples behind the baseline finds. */
  lemma SegmentExact(data: seq<real>, p: Params, segStart: nat) returns (ups: seq<nat>, downs: seq<nat>)
    requires segStart < |data|
    ensures var end := BaselineEnd(data, p, segStart);
            if end - segStart < 5 then SegmentEnd(data, p, segStart) == None
            else
              var norm := NormOf(data[segStart..end], p);
              match SegmentEnd(data, p, segStart)
              case None => Scanned(data, p, norm, end, ups, downs, None)
              case Some(c) =>
                && Scanned(data, p, norm, end, ups, downs, Some((c.step, c.direction)))
                && c.step < |data| && Carries(data, p.baselineSize, norm.mu, c.step, c.direction, c)
  {
    var end := BaselineEnd(data, p, segStart);
    ups, downs := [], [];
    SegmentByScan(data, p, segStart);
    if end - segStart >= 5 {
      var norm := NormOf(data[segStart..end], p);
      var r := Scan(data, p, norm, end, end, end);
      ups, downs := ScanExact(data, p, norm, end, end, end);
      if r.Some? {
        PointExact(data, p, norm.mu, r.value.0, r.value.1);
      }
    }
  }

  /** Where the segment that change point `t` ends has started. */
  ghost function StartOf(segStart: nat, all: seq<ChangePoint>, t: nat): nat
    requires t <= |all|
  {
    if t == 0 then segStart else all[t - 1].step
  }

  /** The points follow one another: each is what `next` gives for the start before it, and it gives
      nothing for the last one. */
  ghost predicate Follows(next: nat -> Option<ChangePoint>, segStart: nat, all: seq<ChangePoint>) {
    && (forall t {:trigger StartOf(segStart, all, t)} :: 0 <= t < |all| ==>
          next(StartOf(segStart, all, t)) == Some(all[t]))
    && next(StartOf(segStart, all, |all|)) == None
  }

  lemma FollowsExtends(next: nat -> Option<ChangePoint>, segStart: nat, c: ChangePoint, rest: seq<ChangePoint>)
    requires next(segStart) == Some(c) && Follows(next, c.step, rest)
    ensures Follows(next, segStart, [c] + rest)
  {
    var all := [c] + rest;
    forall t | 1 <= t <= |all| ensures StartOf(segStart, all, t) == StartOf(c.step, rest, t - 1) {
    }
    forall t {:trigger StartOf(segStart, all, t)} | 0 <= t < |all|
      ensures next(StartOf(segStart, all, t)) == Some(all[t])
    {
      if t > 0 {
        assert all[t] == rest[t - 1] && next(StartOf(c.step, rest, t - 1)) == Some(rest[t - 1]);
      }
    }
  }

  /** What the segments of the data yield, by where they start. */
  ghost function EndOf(data: seq<real>, p: Params): nat -> Option<ChangePoint> {
    (start: nat) => if start < |data| then SegmentEnd(data, p, start) else None
  }

  lemma {:induction false} SegmentsExact(data: seq<real>, p: Params, segStart: nat)
    requires segStart < |data|
    ensures Follows(EndOf(data, p), segStart, Segments(data, p, segStart))
    decreases |data| - segStart
  {
    var next := EndOf(data, p);
    SegmentEndStarts(data, p, segStart);
    match SegmentEnd(data, p, segStart)
    case None =>
      assert StartOf(segStart, [], 0) == segStart && next(segStart) == None;
    case Some(c) =>
      SegmentsExact(data, p, c.step);
      assert next(segStart) == Some(c);
      FollowsExtends(next, segStart, c, Segments(data, p, c.step));
  }

  /** What is reported: nothing when there are not five samples behind the first baseline; otherwise the
      points that end one segment after the other, each segment starting at the point before it,
      without the last one when less than a baseline is left from it on. */
  lemma ReportedExact(data: seq<real>, p: Params) returns (all: seq<ChangePoint>)
    ensures |data| < p.baselineSize + 5 ==> Reported(data, p) == []
    ensures |data| >= p.baselineSize + 5 && data != [] ==>
              && Follows(EndOf(data, p), 0, all)
              && Reported(data, p) ==
                   if all != [] && all[|all| - 1].step + p.baselineSize > |data| then all[..|all| - 1] else all
  {
    all := Found(data, p, 0);
    if |data| >= p.baselineSize + 5 && data != [] {
      SegmentsExact(data, p, 0);
      FoundChain(data, p);
      FilterDropsAtMostLast(all, p.baselineSize, |data|);
      KeptFits(all, p.baselineSize, |data|);
      if all != [] && all[|all| - 1].step + p.baselineSize > |data| {
        assert all[|all| - 1] in all;
      }
    }
  }
}
