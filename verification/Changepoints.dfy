/** Change-point detection: two cumulative sums against a baseline, alarms that must be
    confirmed, and a fresh baseline from every confirmed change on. */
module Changepoints {
  import opened Common

  datatype Direction = Up | Down

  datatype ChangePoint = ChangePoint(step: nat, oldMean: real, newMean: real, direction: Direction, pct: real)

  /** The tuning parameters, and the square root the platform provides. */
  datatype Params = Params(baselineSize: int, kFactor: real, hFactor: real, minPct: real, confirmCount: int,
      sqrt: real -> real) {
    ghost predicate FactorsNonNegative() { kFactor >= 0.0 && hFactor >= 0.0 }
  }

  /** Baseline mean, slack and alarm threshold of one segment. */
  datatype Norm = Norm(mu: real, k: real, h: real)

  function Abs(x: real): real { if x < 0.0 then -x else x }

  function Mean(s: seq<real>): real
    requires s != []
  {
    SumReal(s) / |s| as real
  }

  function SquaredDeviations(s: seq<real>, mu: real): (r: real)
    ensures r >= 0.0
  {
    if s == [] then 0.0
    else
      var d := s[|s| - 1] - mu;
      SquaredDeviations(s[..|s| - 1], mu) + d * d
  }

  // ----- Confirmation

  predicate Crosses(dir: Direction, x: real, threshold: real) {
    match dir case Up => x > threshold case Down => x < threshold
  }

  function Crossings(dir: Direction, s: seq<real>, threshold: real): nat {
    if s == [] then 0
    else Crossings(dir, s[..|s| - 1], threshold) + if Crosses(dir, s[|s| - 1], threshold) then 1 else 0
  }

  /** Enough of the window lies beyond the threshold, or its mean does. */
  predicate Convincing(dir: Direction, window: seq<real>, threshold: real)
    requires window != []
  {
    || Crossings(dir, window, threshold) as real / |window| as real >= 0.2
    || Crosses(dir, Mean(window), threshold)
  }

  function WindowAt(data: seq<real>, j: nat, size: nat): seq<real>
    requires j <= |data|
  {
    data[j..Min(j + size, |data|)]
  }

  /** At `j` a full enough window convinces. */
  predicate ConvincingAt(data: seq<real>, j: nat, threshold: real, count: nat, dir: Direction)
    requires count >= 1
  {
    j + count <= |data| && Convincing(dir, WindowAt(data, j, 2 * count), threshold)
  }

  /** The first convincing index in the five counts from the trigger on. */
  ghost predicate IsConfirmation(data: seq<real>, trigger: nat, threshold: real, confirmCount: int, dir: Direction,
      r: Option<nat>)
  {
    var count := Max(confirmCount, 1);
    match r
    case Some(j) =>
      && trigger <= j < trigger + 5 * count && ConvincingAt(data, j, threshold, count, dir)
      && forall i :: trigger <= i < j ==> !ConvincingAt(data, i, threshold, count, dir)
    case None => forall i :: trigger <= i < trigger + 5 * count ==> !ConvincingAt(data, i, threshold, count, dir)
  }

  method ConfirmLoop(data: seq<real>, trigger: nat, threshold: real, confirmCount: int, dir: Direction)
      returns (r: Option<nat>)
    requires trigger < |data|
    ensures IsConfirmation(data, trigger, threshold, confirmCount, dir, r)
  {
    var n := |data|;
    var count := Max(confirmCount, 1);
    var windowSize := Max(1, count * 2);
    var scanEnd := Min(trigger + count * 5, n);
    for j := trigger to scanEnd
      invariant forall i :: trigger <= i < j ==> !ConvincingAt(data, i, threshold, count, dir)
    {
      var window := data[j..Min(j + windowSize, n)];
      if |window| < count {
        return None;
      }
      assert window == WindowAt(data, j, 2 * count);
      if Crossings(dir, window, threshold) as real / |window| as real >= 0.2 || Crosses(dir, Mean(window), threshold) {
        return Some(j);
      }
    }
    return None;
  }

  ghost function ConfirmFrom(data: seq<real>, trigger: nat, j: nat, threshold: real, confirmCount: int,
      dir: Direction): (r: Option<nat>)
    requires trigger <= j <= trigger + 5 * Max(confirmCount, 1)
    requires forall i :: trigger <= i < j ==> !ConvincingAt(data, i, threshold, Max(confirmCount, 1), dir)
    ensures IsConfirmation(data, trigger, threshold, confirmCount, dir, r)
    decreases trigger + 5 * Max(confirmCount, 1) - j
  {
    var count := Max(confirmCount, 1);
    if j == trigger + 5 * count then None
    else if ConvincingAt(data, j, threshold, count, dir) then Some(j)
    else ConfirmFrom(data, trigger, j + 1, threshold, confirmCount, dir)
  }

  /** The confirmation as a function. */
  ghost function Confirm(data: seq<real>, trigger: nat, threshold: real, confirmCount: int,
      dir: Direction): (r: Option<nat>)
    ensures IsConfirmation(data, trigger, threshold, confirmCount, dir, r)
  {
    ConfirmFrom(data, trigger, trigger, threshold, confirmCount, dir)
  }

  lemma ConfirmationUnique(data: seq<real>, trigger: nat, threshold: real, confirmCount: int, dir: Direction,
      a: Option<nat>, b: Option<nat>)
    requires IsConfirmation(data, trigger, threshold, confirmCount, dir, a)
    requires IsConfirmation(data, trigger, threshold, confirmCount, dir, b)
    ensures a == b
  {
  }

  // ----- Cumulative sums

  /** What one sample adds to the sum of this direction. */
  function Term(norm: Norm, dir: Direction, x: real): real {
    match dir case Up => x - norm.mu - norm.k case Down => norm.mu - norm.k - x
  }

  /** The accumulator after the samples `[from, i)`, started at zero. */
  ghost function Cusum(data: seq<real>, norm: Norm, dir: Direction, from: nat, i: nat): real
    requires from <= i <= |data|
    decreases i
  {
    if i == from then 0.0 else MaxReal(0.0, Cusum(data, norm, dir, from, i - 1) + Term(norm, dir, data[i - 1]))
  }

  ghost function TermSum(data: seq<real>, norm: Norm, dir: Direction, a: nat, i: nat): real
    requires a <= i <= |data|
    decreases i
  {
    if i == a then 0.0 else TermSum(data, norm, dir, a, i - 1) + Term(norm, dir, data[i - 1])
  }

  /** The accumulator is the largest sum of terms over any stretch that ends here and
      starts no earlier than the last reset, the empty stretch included. */
  lemma {:induction false} CusumIsPeak(data: seq<real>, norm: Norm, dir: Direction, from: nat, i: nat)
      returns (best: nat)
    requires from <= i <= |data|
    ensures forall a :: from <= a <= i ==> TermSum(data, norm, dir, a, i) <= Cusum(data, norm, dir, from, i)
    ensures from <= best <= i && TermSum(data, norm, dir, best, i) == Cusum(data, norm, dir, from, i)
    decreases i
  {
    best := i;
    if i > from {
      var before := CusumIsPeak(data, norm, dir, from, i - 1);
      if Cusum(data, norm, dir, from, i - 1) + Term(norm, dir, data[i - 1]) > 0.0 {
        best := before;
      }
      forall a | from <= a <= i ensures TermSum(data, norm, dir, a, i) <= Cusum(data, norm, dir, from, i) {
        if a < i {
          assert TermSum(data, norm, dir, a, i - 1) <= Cusum(data, norm, dir, from, i - 1);
        }
      }
    }
  }

  // ----- One segment

  /** The baseline deviation, floored by a fraction of the mean. */
  function EffectiveSigma(baseline: seq<real>, p: Params): (r: real)
    requires baseline != []
    ensures r >= 0.0
  {
    var mu := Mean(baseline);
    var spread := p.sqrt(SquaredDeviations(baseline, mu) / |baseline| as real);
    var sigma := if spread < 0.000000001 then (if mu != 0.0 then Abs(mu) * 0.01 else 1.0) else spread;
    MaxReal(sigma, Abs(mu) * 0.02)
  }

  /** Alarm levels from the baseline samples. */
  function NormOf(baseline: seq<real>, p: Params): Norm
    requires baseline != []
  {
    var effective := EffectiveSigma(baseline, p);
    Norm(Mean(baseline), p.kFactor * effective, p.hFactor * effective)
  }

  function Threshold(norm: Norm, p: Params, dir: Direction): real {
    match dir
    case Up => norm.mu * (1.0 + p.minPct / 100.0)
    case Down => norm.mu * (1.0 - p.minPct / 100.0)
  }

  /** What the scan of a segment finds from sample `i` on, the sums having been reset last
      at `up` and `down`: the confirmed index and direction. */
  ghost function Scan(data: seq<real>, p: Params, norm: Norm, i: nat, up: nat, down: nat): (r: Option<(nat, Direction)>)
    requires up <= i && down <= i <= |data|
    ensures r.Some? ==> i <= r.value.0 < |data|
    decreases |data| - i
  {
    if i == |data| then None
    else if Cusum(data, norm, Up, up, i + 1) > norm.h then
      match Confirm(data, i, Threshold(norm, p, Up), p.confirmCount, Up)
      case Some(j) => Some((j, Up))
      case None => Scan(data, p, norm, i + 1, i + 1, down)
    else if Cusum(data, norm, Down, down, i + 1) > norm.h then
      match Confirm(data, i, Threshold(norm, p, Down), p.confirmCount, Down)
      case Some(j) => Some((j, Down))
      case None => Scan(data, p, norm, i + 1, up, i + 1)
    else Scan(data, p, norm, i + 1, up, down)
  }

  /** Both sums are within the alarm level. */
  ghost predicate Calm(data: seq<real>, norm: Norm, i: nat, up: nat, down: nat)
    requires up <= i && down <= i <= |data|
  {
    Cusum(data, norm, Up, up, i) <= norm.h && Cusum(data, norm, Down, down, i) <= norm.h
  }

  /** One sample cannot raise both alarms. */
  lemma NeverBothAlarms(data: seq<real>, norm: Norm, i: nat, up: nat, down: nat)
    requires up <= i && down <= i < |data| && norm.k >= 0.0 && norm.h >= 0.0 && Calm(data, norm, i, up, down)
    ensures Cusum(data, norm, Up, up, i + 1) <= norm.h || Cusum(data, norm, Down, down, i + 1) <= norm.h
  {
  }

  /** The same scan, except that after a rejected upward alarm it goes on to look for a
      downward one in the same sample. */
  ghost function ScanThrough(data: seq<real>, p: Params, norm: Norm, i: nat, up: nat,
      down: nat): (r: Option<(nat, Direction)>)
    requires up <= i && down <= i <= |data|
    decreases |data| - i
  {
    if i == |data| then None
    else
      var high := Cusum(data, norm, Up, up, i + 1) > norm.h;
      var rise := if high then Confirm(data, i, Threshold(norm, p, Up), p.confirmCount, Up) else None;
      if rise.Some? then Some((rise.value, Up))
      else
        var up' := if high then i + 1 else up;
        var low := Cusum(data, norm, Down, down, i + 1) > norm.h;
        var fall := if low then Confirm(data, i, Threshold(norm, p, Down), p.confirmCount, Down) else None;
        if fall.Some? then Some((fall.value, Down))
        else ScanThrough(data, p, norm, i + 1, up', if low then i + 1 else down)
  }

  /** Skipping to the next sample after a rejected upward alarm hides no downward one:
      both sums are within the alarm level at the start of every iteration. */
  lemma {:induction false} RejectionHidesNothing(data: seq<real>, p: Params, norm: Norm, i: nat, up: nat, down: nat)
    requires up <= i && down <= i <= |data| && norm.k >= 0.0 && norm.h >= 0.0 && Calm(data, norm, i, up, down)
    ensures Scan(data, p, norm, i, up, down) == ScanThrough(data, p, norm, i, up, down)
    decreases |data| - i
  {
    if i >= |data| {
    } else {
      NeverBothAlarms(data, norm, i, up, down);
      var high, low := Cusum(data, norm, Up, up, i + 1) > norm.h, Cusum(data, norm, Down, down, i + 1) > norm.h;
      RejectionHidesNothing(data, p, norm, i + 1, if high then i + 1 else up, if low then i + 1 else down);
    }
  }

  // ----- The whole trace

  /** The samples that set the baseline of a segment starting at `i`. */
  function Lookahead(data: seq<real>, p: Params, i: nat): seq<real>
    requires i <= |data|
  {
    var end := Min(i + p.baselineSize, |data|);
    if end <= i then [] else data[i..end]
  }

  function Percent(newMean: real, mu: real): real {
    if mu != 0.0 then (newMean - mu) / mu * 100.0 else 0.0
  }

  function PointAt(data: seq<real>, p: Params, mu: real, j: nat, dir: Direction): ChangePoint
    requires j <= |data|
  {
    var newMean := if Lookahead(data, p, j) == [] then 0.0 else Mean(Lookahead(data, p, j));
    ChangePoint(j, mu, newMean, dir, Percent(newMean, mu))
  }

  /** The change points found from `segStart` on: each ends one segment and starts the next. */
  ghost function Segments(data: seq<real>, p: Params, segStart: nat): seq<ChangePoint>
    requires segStart < |data|
    decreases |data| - segStart
  {
    var baseline := Lookahead(data, p, segStart);
    if |baseline| < 5 then []
    else
      var norm := NormOf(baseline, p);
      var first := segStart + |baseline|;
      match Scan(data, p, norm, first, first, first)
      case None => []
      case Some((j, dir)) =>
        [PointAt(data, p, norm.mu, j, dir)] + Segments(data, p, j)
  }

  /** Points too close to the end to have a full baseline of their own are dropped. */
  function KeepSettled(points: seq<ChangePoint>, size: int, n: nat): seq<ChangePoint> {
    if points == [] then []
    else KeepSettled(points[..|points| - 1], size, n)
         + if points[|points| - 1].step + size <= n then [points[|points| - 1]] else []
  }

  /** Confirmation of an alarm raised at `i`. */
  method ConfirmAlarm(data: seq<real>, p: Params, norm: Norm, i: nat, dir: Direction) returns (r: Option<nat>)
    requires i < |data|
    ensures r == Confirm(data, i, Threshold(norm, p, dir), p.confirmCount, dir)
  {
    var threshold := Threshold(norm, p, dir);
    r := ConfirmLoop(data, i, threshold, p.confirmCount, dir);
    ConfirmationUnique(data, i, threshold, p.confirmCount, dir, r, Confirm(data, i, threshold, p.confirmCount, dir));
  }

  /** The scan of one segment. */
  method ScanSegment(data: seq<real>, p: Params, norm: Norm, first: nat) returns (r: Option<(nat, Direction)>)
    requires first <= |data|
    ensures r == Scan(data, p, norm, first, first, first)
  {
    var sPos, sNeg := 0.0, 0.0;
    ghost var up: nat, down: nat := first, first;
    for i := first to |data|
      invariant up <= i && down <= i
      invariant sPos == Cusum(data, norm, Up, up, i) && sNeg == Cusum(data, norm, Down, down, i)
      invariant Scan(data, p, norm, first, first, first) == Scan(data, p, norm, i, up, down)
    {
      var x := data[i];
      sPos := MaxReal(0.0, sPos + (x - norm.mu - norm.k));
      sNeg := MaxReal(0.0, sNeg + (norm.mu - norm.k - x));
      if sPos > norm.h {
        var confirmed := ConfirmAlarm(data, p, norm, i, Up);
        if confirmed.Some? {
          return Some((confirmed.value, Up));
        }
        sPos := 0.0;
        up := i + 1;
        continue;
      }
      if sNeg > norm.h {
        var confirmed := ConfirmAlarm(data, p, norm, i, Down);
        if confirmed.Some? {
          return Some((confirmed.value, Down));
        }
        sNeg := 0.0;
        down := i + 1;
        continue;
      }
    }
    return None;
  }

  /** What one segment yields: the change point that ends it, if any. */
  ghost function SegmentEnd(data: seq<real>, p: Params, segStart: nat): Option<ChangePoint>
    requires segStart < |data|
  {
    var baseline := Lookahead(data, p, segStart);
    if |baseline| < 5 then None
    else
      var first := segStart + |baseline|;
      match Scan(data, p, NormOf(baseline, p), first, first, first)
      case None => None
      case Some((j, dir)) => Some(PointAt(data, p, Mean(baseline), j, dir))
  }

  /** A segment's change point lies a baseline or more behind its start, carries the means of
      the baselines on either side, and starts what is found next. */
  lemma {:induction false} SegmentEndStarts(data: seq<real>, p: Params, segStart: nat)
    requires segStart < |data|
    ensures match SegmentEnd(data, p, segStart)
            case None => Segments(data, p, segStart) == []
            case Some(c) =>
              && |Lookahead(data, p, segStart)| == p.baselineSize >= 5
              && segStart + p.baselineSize <= c.step < |data|
              && Lookahead(data, p, c.step) != []
              && c.oldMean == Mean(Lookahead(data, p, segStart)) && c.newMean == Mean(Lookahead(data, p, c.step))
              && Segments(data, p, segStart) == [c] + Segments(data, p, c.step)
  {
  }

  /** The change point, with the mean of what follows it. */
  method MakePoint(data: seq<real>, p: Params, mu: real, at: nat, dir: Direction) returns (point: ChangePoint)
    requires at < |data| && p.baselineSize >= 1
    ensures point == PointAt(data, p, mu, at, dir)
  {
    var lookahead := data[at..Min(at + p.baselineSize, |data|)];
    var newMean := Mean(lookahead);
    return ChangePoint(at, mu, newMean, dir, Percent(newMean, mu));
  }

  /** One segment: baseline, scan, and the change point that ends it, if any. */
  method NextPoint(data: seq<real>, p: Params, segStart: nat) returns (r: Option<ChangePoint>)
    requires segStart < |data|
    ensures r == SegmentEnd(data, p, segStart)
  {
    var n := |data|;
    var segEnd := Min(segStart + p.baselineSize, n);
    if segEnd - segStart < 5 {
      return None;
    }
    var baseline := data[segStart..segEnd];
    assert baseline == Lookahead(data, p, segStart);
    var norm := NormOf(baseline, p);
    var hit := ScanSegment(data, p, norm, segEnd);
    if hit.None? {
      return None;
    }
    var (at, dir) := hit.value;
    var point := MakePoint(data, p, norm.mu, at, dir);
    return Some(point);
  }

  /** What is found from `segStart` on; nothing when the data is used up. */
  ghost function Found(data: seq<real>, p: Params, segStart: nat): seq<ChangePoint>
    requires segStart <= |data|
  {
    if segStart < |data| then Segments(data, p, segStart) else []
  }

  /** What is reported: nothing on too short a trace, else the settled points. */
  ghost function Reported(data: seq<real>, p: Params): seq<ChangePoint> {
    if |data| < p.baselineSize + 5 then [] else KeepSettled(Found(data, p, 0), p.baselineSize, |data|)
  }

  method DetectChangepoints(data: seq<real>, p: Params) returns (points: seq<ChangePoint>)
    ensures points == Reported(data, p)
  {
    var n := |data|;
    if n < p.baselineSize + 5 {
      return [];
    }
    var found: seq<ChangePoint> := [];
    var segStart := 0;
    ghost var rest := Found(data, p, 0);
    while segStart < n
      invariant segStart <= n && rest == Found(data, p, segStart) && Found(data, p, 0) == found + rest
      decreases n - segStart
    {
      var point := NextPoint(data, p, segStart);
      SegmentEndStarts(data, p, segStart);
      if point.None? {
        break;
      }
      found := found + [point.value];
      segStart := point.value.step;
      rest := Found(data, p, segStart);
    }
    assert found + [] == found;
    points := KeepSettled(found, p.baselineSize, n);
  }

  // ----- The chain

  /** Each point at least a baseline after the one before, and each new mean the old mean
      of the next. */
  ghost predicate Chained(points: seq<ChangePoint>, size: int) {
    && (forall t, u :: 0 <= t < u < |points| ==> points[t].step + size <= points[u].step)
    && (forall t, u :: 0 <= t < |points| && u == t + 1 && u < |points| ==> points[t].newMean == points[u].oldMean)
  }

  lemma ChainedExtends(x: ChangePoint, rest: seq<ChangePoint>, size: int)
    requires Chained(rest, size) && size >= 0
    requires rest != [] ==> x.step + size <= rest[0].step && x.newMean == rest[0].oldMean
    ensures Chained([x] + rest, size)
  {
    var c := [x] + rest;
    assert forall t :: 0 < t < |c| ==> c[t] == rest[t - 1];
  }

  lemma {:induction false} SegmentsChained(data: seq<real>, p: Params, segStart: nat)
    requires segStart < |data|
    ensures var c := Segments(data, p, segStart);
            && Chained(c, p.baselineSize)
            && (forall t :: 0 <= t < |c| ==> segStart + p.baselineSize <= c[t].step < |data|)
            && (c != [] ==> p.baselineSize >= 5)
    decreases |data| - segStart
  {
    SegmentEndStarts(data, p, segStart);
    match SegmentEnd(data, p, segStart)
    case None =>
    case Some(x) =>
      var rest := Segments(data, p, x.step);
      SegmentsChained(data, p, x.step);
      SegmentEndStarts(data, p, x.step);
      ChainedExtends(x, rest, p.baselineSize);
      var c := Segments(data, p, segStart);
      assert forall t :: 0 < t < |c| ==> c[t] == rest[t - 1];
  }

  lemma {:induction false} KeepAllSettled(points: seq<ChangePoint>, size: int, n: nat)
    requires forall t :: 0 <= t < |points| ==> points[t].step + size <= n
    ensures KeepSettled(points, size, n) == points
  {
    if points == [] {
    } else {
      var init := points[..|points| - 1];
      KeepAllSettled(init, size, n);
      assert points == init + [points[|points| - 1]];
    }
  }

  /** On a chain, the filter at the end drops the last point or nothing. */
  lemma {:induction false} FilterDropsAtMostLast(c: seq<ChangePoint>, size: int, n: nat)
    requires Chained(c, size) && forall t :: 0 <= t < |c| ==> c[t].step < n
    ensures var kept := KeepSettled(c, size, n);
            kept == c || (c != [] && kept == c[..|c| - 1] && c[|c| - 1].step + size > n)
  {
    if c != [] {
      var init := c[..|c| - 1];
      forall t | 0 <= t < |init| ensures init[t].step + size <= n {
        assert c[t].step + size <= c[|c| - 1].step;
      }
      KeepAllSettled(init, size, n);
      assert c == init + [c[|c| - 1]];
    }
  }

  lemma {:induction false} StepsSpread(points: seq<ChangePoint>, size: int, t: nat)
    requires Chained(points, size) && t < |points| && size >= 0 && points[0].step >= size
    ensures points[t].step >= (t + 1) * size
  {
    if t == 0 {
    } else {
      StepsSpread(points, size, t - 1);
      assert (t + 1) * size == t * size + size;
    }
  }

  lemma {:induction false} KeptFits(points: seq<ChangePoint>, size: int, n: nat)
    ensures forall x :: x in KeepSettled(points, size, n) ==> x in points && x.step + size <= n
  {
    if points == [] {
    } else {
      KeptFits(points[..|points| - 1], size, n);
    }
  }

  lemma ChainedPrefix(c: seq<ChangePoint>, size: int, m: nat)
    requires Chained(c, size) && m <= |c|
    ensures Chained(c[..m], size)
  {
  }

  lemma KeptWithin(c: seq<ChangePoint>, kept: seq<ChangePoint>, size: int, n: nat)
    requires |kept| <= |c| && kept == c[..|kept|] && forall t :: 0 <= t < |c| ==> size <= c[t].step
    requires forall x :: x in kept ==> x.step + size <= n
    ensures forall t :: 0 <= t < |kept| ==> size <= kept[t].step && kept[t].step + size <= n
  {
    forall t | 0 <= t < |kept| ensures size <= kept[t].step && kept[t].step + size <= n {
      assert kept[t] == c[t] && kept[t] in kept;
    }
  }

  lemma KeptPrefix(c: seq<ChangePoint>, size: int, n: nat)
    requires Chained(c, size) && forall t :: 0 <= t < |c| ==> c[t].step < n
    ensures KeepSettled(c, size, n) <= c
  {
    FilterDropsAtMostLast(c, size, n);
  }

  lemma {:induction false} KeptChain(c: seq<ChangePoint>, size: int, n: nat)
    requires Chained(c, size) && forall t :: 0 <= t < |c| ==> size <= c[t].step < n
    ensures Chained(KeepSettled(c, size, n), size)
    ensures var kept := KeepSettled(c, size, n);
            forall t :: 0 <= t < |kept| ==> size <= kept[t].step && kept[t].step + size <= n
  {
    var kept := KeepSettled(c, size, n);
    KeptPrefix(c, size, n);
    assert kept == c[..|kept|];
    assert Chained(kept, size) by {
      ChainedPrefix(c, size, |kept|);
    }
    assert forall x :: x in kept ==> x.step + size <= n by {
      KeptFits(c, size, n);
    }
    KeptWithin(c, kept, size, n);
  }

  lemma {:induction false} ChainFits(kept: seq<ChangePoint>, size: nat, n: nat)
    requires Chained(kept, size) && kept != [] && kept[0].step >= size && kept[|kept| - 1].step + size <= n
    ensures (|kept| + 1) * size <= n
  {
    StepsSpread(kept, size, |kept| - 1);
    assert (|kept| + 1) * size == |kept| * size + size;
  }

  lemma {:induction false} KeptRoom(c: seq<ChangePoint>, size: int, n: nat)
    requires Chained(c, size) && (forall t :: 0 <= t < |c| ==> size <= c[t].step < n) && (c != [] ==> size >= 0)
    ensures var kept := KeepSettled(c, size, n);
            kept != [] ==> (|kept| + 1) * size <= n
  {
    KeptChain(c, size, n);
    var kept := KeepSettled(c, size, n);
    if kept != [] {
      FilterDropsAtMostLast(c, size, n);
      ChainFits(kept, size, n);
    }
  }

  lemma FoundChain(data: seq<real>, p: Params)
    ensures var c := Found(data, p, 0);
            && Chained(c, p.baselineSize) && (forall t :: 0 <= t < |c| ==> p.baselineSize <= c[t].step < |data|)
            && (c != [] ==> p.baselineSize >= 0)
  {
    if data != [] {
      SegmentsChained(data, p, 0);
    }
  }

  /** What the reported change points satisfy: they form a chain inside the data, every
      point and the last one's own baseline fit, so there is room for one baseline more
      than there are points. */
  lemma {:induction false} ReportedChain(data: seq<real>, p: Params)
    ensures var kept := KeepSettled(Found(data, p, 0), p.baselineSize, |data|);
            && Chained(kept, p.baselineSize)
            && (forall t :: 0 <= t < |kept| ==>
                p.baselineSize <= kept[t].step && kept[t].step + p.baselineSize <= |data|)
            && (kept != [] ==> (|kept| + 1) * p.baselineSize <= |data|)
  {
    var c := Found(data, p, 0);
    FoundChain(data, p);
    KeptChain(c, p.baselineSize, |data|);
    KeptRoom(c, p.baselineSize, |data|);
  }

  /** Reported change points are at ever later steps, whatever the parameters. */
  lemma {:induction false} ReportedIncrease(data: seq<real>, p: Params)
    ensures var points := Reported(data, p);
            forall t, u :: 0 <= t < u < |points| ==> points[t].step < points[u].step
  {
    if Reported(data, p) == [] {
    } else {
      ReportedChain(data, p);
      KeptFits(Found(data, p, 0), p.baselineSize, |data|);
      assert Reported(data, p)[0] in Found(data, p, 0);
      SegmentsChained(data, p, 0);
    }
  }

  lemma ProductNonNegative(a: real, b: real)
    requires a >= 0.0 && b >= 0.0
    ensures a * b >= 0.0
  {
  }

  lemma NormNonNegative(baseline: seq<real>, p: Params)
    requires baseline != [] && p.FactorsNonNegative()
    ensures NormOf(baseline, p).k >= 0.0 && NormOf(baseline, p).h >= 0.0
  {
    ProductNonNegative(p.kFactor, EffectiveSigma(baseline, p));
    ProductNonNegative(p.hFactor, EffectiveSigma(baseline, p));
  }

  /** With non-negative factors this holds in every segment, whatever the square root. */
  lemma {:induction false} NoSegmentHidesAlarms(data: seq<real>, p: Params, baseline: seq<real>, first: nat)
    requires baseline != [] && p.FactorsNonNegative() && first <= |data|
    ensures Scan(data, p, NormOf(baseline, p), first, first, first)
         == ScanThrough(data, p, NormOf(baseline, p), first, first, first)
  {
    NormNonNegative(baseline, p);
    RejectionHidesNothing(data, p, NormOf(baseline, p), first, first, first);
  }
}
