/** Change points of a single jump: on data that stays at one value and then at another, what is
    reported is exactly the jump, as soon as it has built up an alarm. */
module Jumps {
  import opened Common
  import opened Changepoints

  ghost predicate Constant(s: seq<real>, c: real) {
    forall i :: 0 <= i < |s| ==> s[i] == c
  }

  lemma {:induction false} SumOfConstant(s: seq<real>, c: real)
    requires Constant(s, c)
    ensures SumReal(s) == |s| as real * c
  {
    if s == [] {
    } else {
      var n := |s| - 1;
      SumOfConstant(s[..n], c);
      assert (n + 1) as real * c == n as real * c + c;
    }
  }

  lemma Quotient(n: nat, c: real)
    requires n > 0
    ensures (n as real * c) / n as real == c
  {
  }

  lemma MeanOfConstant(s: seq<real>, c: real)
    requires s != [] && Constant(s, c)
    ensures Mean(s) == c
  {
    SumOfConstant(s, c);
    Quotient(|s|, c);
  }

  lemma {:induction false} ConstantHasNoSpread(s: seq<real>, c: real)
    requires Constant(s, c)
    ensures SquaredDeviations(s, c) == 0.0
  {
    if s == [] {
    } else {
      ConstantHasNoSpread(s[..|s| - 1], c);
    }
  }

  /** Slack and alarm level of a constant positive baseline: two hundredths of it, times the factors. */
  lemma NormOfConstant(s: seq<real>, p: Params, c: real)
    requires s != [] && Constant(s, c) && c > 0.0 && p.sqrt(0.0) == 0.0
    ensures NormOf(s, p) == Norm(c, p.kFactor * (c * 0.02), p.hFactor * (c * 0.02))
  {
    MeanOfConstant(s, c);
    ConstantHasNoSpread(s, c);
    assert SquaredDeviations(s, c) / |s| as real == 0.0;
    assert EffectiveSigma(s, p) == c * 0.02;
  }

  // ----- Data at the mean raises no alarm

  lemma {:induction false} CusumStaysAtZero(data: seq<real>, norm: Norm, dir: Direction, from: nat, i: nat)
    requires from <= i <= |data| && forall t :: from <= t < i ==> Term(norm, dir, data[t]) <= 0.0
    ensures Cusum(data, norm, dir, from, i) == 0.0
    decreases i
  {
    if i == from {
    } else {
      CusumStaysAtZero(data, norm, dir, from, i - 1);
    }
  }

  lemma {:induction false} NothingFound(data: seq<real>, p: Params, norm: Norm, first: nat, i: nat)
    requires first <= i <= |data| && norm.k >= 0.0 && norm.h >= 0.0
    requires forall t :: first <= t < |data| ==> data[t] == norm.mu
    ensures Scan(data, p, norm, i, first, first) == None
    decreases |data| - i
  {
    if i == |data| {
    } else {
      CusumStaysAtZero(data, norm, Up, first, i + 1);
      CusumStaysAtZero(data, norm, Down, first, i + 1);
      NothingFound(data, p, norm, first, i + 1);
    }
  }

  // ----- Data off the mean

  lemma TimesGrow(m: int, n: int, d: real)
    requires m <= n && d >= 0.0
    ensures Times(m, d) <= Times(n, d)
  {
    assert (n - m) as real * d >= 0.0;
    assert n as real * d == m as real * d + (n - m) as real * d;
  }

  lemma {:induction false} CusumRises(data: seq<real>, norm: Norm, dir: Direction, from: nat, i: nat, d: real)
    requires from <= i <= |data| && d >= 0.0 && forall t :: from <= t < i ==> Term(norm, dir, data[t]) == d
    ensures Cusum(data, norm, dir, from, i) == Times(i - from, d)
    decreases i
  {
    if i == from {
    } else {
      CusumRises(data, norm, dir, from, i - 1, d);
      OnceMore(i - from, d);
      assert i - from - 1 == i - 1 - from;
      TimesGrow(0, i - 1 - from, d);
    }
  }

  function Opposite(dir: Direction): Direction {
    match dir case Up => Down case Down => Up
  }

  /** The data behind `first` is off the mean by the slack and `d` more, in one direction. */
  ghost predicate Off(data: seq<real>, norm: Norm, dir: Direction, first: nat, d: real) {
    forall t :: first <= t < |data| ==> Term(norm, dir, data[t]) == d && Term(norm, Opposite(dir), data[t]) <= 0.0
  }

  /** Confirmation succeeds at once where the samples are beyond the threshold. */
  lemma ConfirmedAtOnce(data: seq<real>, i: nat, threshold: real, confirmCount: int, dir: Direction, y: real)
    requires i + Max(confirmCount, 1) <= |data| && Crosses(dir, y, threshold)
    requires forall t :: i <= t < |data| ==> data[t] == y
    ensures Confirm(data, i, threshold, confirmCount, dir) == Some(i)
  {
    var count := Max(confirmCount, 1);
    MeanOfConstant(WindowAt(data, i, 2 * count), y);
    assert ConvincingAt(data, i, threshold, count, dir);
    ConfirmationUnique(data, i, threshold, confirmCount, dir, Confirm(data, i, threshold, confirmCount, dir), Some(i));
  }

  lemma ScanPasses(data: seq<real>, p: Params, norm: Norm, i: nat, from: nat)
    requires from <= i < |data|
    requires Cusum(data, norm, Up, from, i + 1) <= norm.h && Cusum(data, norm, Down, from, i + 1) <= norm.h
    ensures Scan(data, p, norm, i, from, from) == Scan(data, p, norm, i + 1, from, from)
  {
  }

  lemma ScanFinds(data: seq<real>, p: Params, norm: Norm, i: nat, from: nat, dir: Direction)
    requires from <= i < |data|
    requires Cusum(data, norm, dir, from, i + 1) > norm.h && Cusum(data, norm, Opposite(dir), from, i + 1) <= norm.h
    requires Confirm(data, i, Threshold(norm, p, dir), p.confirmCount, dir) == Some(i)
    ensures Scan(data, p, norm, i, from, from) == Some((i, dir))
  {
  }

  /** The scan passes over the samples until the sum of what they are off by exceeds the alarm level. */
  lemma {:induction false} FoundWhereItBuildsUp(data: seq<real>, p: Params, norm: Norm, first: nat, m: nat, r: nat,
                                                dir: Direction, d: real, y: real)
    requires m < r && first + r <= |data| && norm.h >= 0.0 && d >= 0.0 && Off(data, norm, dir, first, d)
    requires Times(r - 1, d) <= norm.h < Times(r, d)
    requires forall t :: first <= t < |data| ==> data[t] == y
    requires Crosses(dir, y, Threshold(norm, p, dir)) && first + r - 1 + Max(p.confirmCount, 1) <= |data|
    ensures Scan(data, p, norm, first + m, first, first) == Some((first + r - 1, dir))
    decreases r - m
  {
    var i := first + m;
    CusumRises(data, norm, dir, first, i + 1, d);
    CusumStaysAtZero(data, norm, Opposite(dir), first, i + 1);
    if m == r - 1 {
      ConfirmedAtOnce(data, i, Threshold(norm, p, dir), p.confirmCount, dir, y);
      ScanFinds(data, p, norm, i, first, dir);
    } else {
      TimesGrow(m + 1, r - 1, d);
      ScanPasses(data, p, norm, i, first);
      FoundWhereItBuildsUp(data, p, norm, first, m + 1, r, dir, d, y);
    }
  }

  // ----- The report

  /** The data is at `x` for one baseline, and at `y` from then on. */
  ghost predicate JumpsTo(data: seq<real>, size: int, x: real, y: real) {
    && 0 <= size <= |data| && (forall t :: 0 <= t < size ==> data[t] == x)
    && forall t :: size <= t < |data| ==> data[t] == y
  }

  function Towards(x: real, y: real): Direction { if y > x then Up else Down }

  /** `y` is off `x` by the slack of this norm and `d` more, which add up to an alarm in `r` samples. */
  ghost predicate BuildsUp(norm: Norm, x: real, y: real, r: nat, d: real) {
    && norm.mu == x && norm.k >= 0.0 && norm.h >= 0.0
    && d >= 0.0 && d == (if y > x then y - x else x - y) - norm.k
    && r >= 1 && Times(r - 1, d) <= norm.h < Times(r, d)
  }

  lemma JumpIsOff(data: seq<real>, norm: Norm, size: int, x: real, y: real, r: nat, d: real)
    requires JumpsTo(data, size, x, y) && BuildsUp(norm, x, y, r, d)
    ensures Off(data, norm, Towards(x, y), size, d)
  {
  }

  lemma JumpScanned(data: seq<real>, p: Params, norm: Norm, size: nat, x: real, y: real, r: nat, d: real)
    requires JumpsTo(data, size, x, y) && BuildsUp(norm, x, y, r, d)
    requires Crosses(Towards(x, y), y, Threshold(norm, p, Towards(x, y)))
    requires size + r - 1 + Max(p.confirmCount, 1) <= |data|
    ensures Scan(data, p, norm, size, size, size) == Some((size + r - 1, Towards(x, y)))
  {
    JumpIsOff(data, norm, size, x, y, r, d);
    FoundWhereItBuildsUp(data, p, norm, size, 0, r, Towards(x, y), d, y);
  }

  /** The segment from the start ends where the jump has built up an alarm. */
  lemma JumpEndsSegment(data: seq<real>, p: Params, x: real, y: real, r: nat, d: real)
    requires JumpsTo(data, p.baselineSize, x, y) && p.baselineSize >= 5
    requires BuildsUp(NormOf(data[..p.baselineSize], p), x, y, r, d)
    requires Crosses(Towards(x, y), y, Threshold(NormOf(data[..p.baselineSize], p), p, Towards(x, y)))
    requires p.baselineSize + r - 1 + Max(p.confirmCount, 1) <= |data|
    ensures SegmentEnd(data, p, 0) == Some(PointAt(data, p, x, p.baselineSize + r - 1, Towards(x, y)))
  {
    var size := p.baselineSize;
    var baseline := Lookahead(data, p, 0);
    assert baseline == data[..size];
    JumpScanned(data, p, NormOf(baseline, p), size, x, y, r, d);
  }

  /** Behind the jump nothing more is found. */
  lemma NothingBehind(data: seq<real>, p: Params, y: real, j: nat)
    requires j < |data| && p.FactorsNonNegative() && forall t :: j <= t < |data| ==> data[t] == y
    ensures SegmentEnd(data, p, j) == None
  {
    var baseline := Lookahead(data, p, j);
    if |baseline| >= 5 {
      MeanOfConstant(baseline, y);
      NormNonNegative(baseline, p);
      NothingFound(data, p, NormOf(baseline, p), j + |baseline|, j + |baseline|);
    }
  }

  lemma PointOfJump(data: seq<real>, p: Params, x: real, y: real, j: nat, dir: Direction)
    requires p.baselineSize >= 1 && j < |data| && x != 0.0 && forall t :: j <= t < |data| ==> data[t] == y
    ensures PointAt(data, p, x, j, dir) == ChangePoint(j, x, y, dir, (y - x) / x * 100.0)
  {
    MeanOfConstant(Lookahead(data, p, j), y);
  }

  lemma OnlyPoint(data: seq<real>, p: Params, c: ChangePoint)
    requires |data| >= p.baselineSize + 5 && p.baselineSize >= 5 && c.step + p.baselineSize <= |data|
    requires SegmentEnd(data, p, 0) == Some(c) && SegmentEnd(data, p, c.step) == None
    ensures Reported(data, p) == [c]
  {
    SegmentEndStarts(data, p, 0);
    SegmentEndStarts(data, p, c.step);
    assert Segments(data, p, 0) == [c] + [];
    assert KeepSettled([c], p.baselineSize, |data|) == [c];
  }

  lemma NothingElse(data: seq<real>, p: Params, c: ChangePoint, y: real)
    requires |data| >= p.baselineSize + 5 && p.baselineSize >= 5 && c.step + p.baselineSize <= |data|
    requires p.FactorsNonNegative() && SegmentEnd(data, p, 0) == Some(c)
    requires forall t :: c.step <= t < |data| ==> data[t] == y
    ensures Reported(data, p) == [c]
  {
    NothingBehind(data, p, y, c.step);
    OnlyPoint(data, p, c);
  }

  lemma JumpWithNorm(data: seq<real>, p: Params, x: real, y: real, r: nat, d: real)
    requires JumpsTo(data, p.baselineSize, x, y) && p.baselineSize >= 5 && x > 0.0 && p.FactorsNonNegative()
    requires BuildsUp(NormOf(data[..p.baselineSize], p), x, y, r, d)
    requires Crosses(Towards(x, y), y, Threshold(NormOf(data[..p.baselineSize], p), p, Towards(x, y)))
    requires p.baselineSize + r - 1 + Max(p.confirmCount, 1) <= |data| && 2 * p.baselineSize + r - 1 <= |data|
    ensures Reported(data, p) ==
              [ChangePoint(p.baselineSize + r - 1, x, y, if y > x then Up else Down, (y - x) / x * 100.0)]
  {
    var j := p.baselineSize + r - 1;
    var c := ChangePoint(j, x, y, Towards(x, y), (y - x) / x * 100.0);
    assert SegmentEnd(data, p, 0) == Some(c) by {
      JumpEndsSegment(data, p, x, y, r, d);
      PointOfJump(data, p, x, y, j, Towards(x, y));
    }
    NothingElse(data, p, c, y);
  }

  lemma BeyondThreshold(norm: Norm, p: Params, x: real, y: real)
    requires norm.mu == x
    requires if y > x then y > x * (1.0 + p.minPct / 100.0) else y < x * (1.0 - p.minPct / 100.0)
    ensures Crosses(Towards(x, y), y, Threshold(norm, p, Towards(x, y)))
  {
  }

  /** A jump from `x` to `y` behind the first baseline, beyond the least percentage to report, is the one
      change point reported. It is put at sample `r - 1` behind the baseline, where `r` is the
      number of samples it takes for what they are off by, less the slack, to add up to more than
      the alarm level; it carries both values, its direction and the change in percent. */
  lemma {:induction false} JumpReported(data: seq<real>, p: Params, norm: Norm, x: real, y: real, r: nat, d: real)
    requires JumpsTo(data, p.baselineSize, x, y) && p.baselineSize >= 5 && x > 0.0
    requires p.FactorsNonNegative() && p.sqrt(0.0) == 0.0
    requires norm == Norm(x, p.kFactor * (x * 0.02), p.hFactor * (x * 0.02)) && BuildsUp(norm, x, y, r, d)
    requires if y > x then y > x * (1.0 + p.minPct / 100.0) else y < x * (1.0 - p.minPct / 100.0)
    requires p.baselineSize + r - 1 + Max(p.confirmCount, 1) <= |data| && 2 * p.baselineSize + r - 1 <= |data|
    ensures Reported(data, p) ==
              [ChangePoint(p.baselineSize + r - 1, x, y, if y > x then Up else Down, (y - x) / x * 100.0)]
  {
    NormOfConstant(data[..p.baselineSize], p, x);
    assert NormOf(data[..p.baselineSize], p) == norm;
    BeyondThreshold(norm, p, x, y);
    JumpWithNorm(data, p, x, y, r, d);
  }

  /** For example, with the default parameters: durations of 10 for a hundred steps and of 20 from then on
      are one change, upwards, at step 100, by 100 percent. */
  lemma DoublingReported(data: seq<real>, sqrt: real -> real)
    requires |data| >= 200 && sqrt(0.0) == 0.0 && JumpsTo(data, 100, 10.0, 20.0)
    ensures Reported(data, Params(100, 1.5, 10.0, 12.0, 10, sqrt)) == [ChangePoint(100, 10.0, 20.0, Up, 100.0)]
  {
    var p := Params(100, 1.5, 10.0, 12.0, 10, sqrt);
    JumpReported(data, p, Norm(10.0, 0.3, 2.0), 10.0, 20.0, 1, 9.7);
  }

  /** And durations of 20 that become 10 are one change, downwards, by 50 percent. */
  lemma HalvingReported(data: seq<real>, sqrt: real -> real)
    requires |data| >= 200 && sqrt(0.0) == 0.0 && JumpsTo(data, 100, 20.0, 10.0)
    ensures Reported(data, Params(100, 1.5, 10.0, 12.0, 10, sqrt)) == [ChangePoint(100, 20.0, 10.0, Down, -50.0)]
  {
    var p := Params(100, 1.5, 10.0, 12.0, 10, sqrt);
    JumpReported(data, p, Norm(20.0, 0.6, 4.0), 20.0, 10.0, 1, 9.4);
  }
}
