/** Step detection on a stream of collective-communication events: an incremental
    prefix-function scan for the shortest doubled period, and the DETECT/MATCH
    machine that cuts the trace into steps. */
module StepDetector {
  import opened Common
  import opened Words

  /** An entry event: its time and the kind of its collective. Kinds are only compared. */
  datatype Event<K> = Event(ts: int, kind: K)

  datatype Step<K> = Step(idx: nat, pattern: seq<K>, startNs: int, endNs: int, durationMs: real)

  /** An interval `[lo, hi)` of event indices. */
  datatype Span = Span(lo: nat, hi: nat)

  function Kinds<K>(events: seq<Event<K>>): (w: seq<K>)
    ensures |w| == |events|
    ensures forall i :: 0 <= i < |w| ==> w[i] == events[i].kind
  {
    if events == [] then [] else Kinds(events[..|events| - 1]) + [events[|events| - 1].kind]
  }

  // ----- Detection: the specification

  /** The part of the stream a scan from `start` looks at. */
  function Window<T>(w: seq<T>, start: nat, maxScan: int): seq<T> {
    var scanEnd := Min(start + maxScan, |w|);
    if start >= scanEnd then [] else w[start..scanEnd]
  }

  /** The prefix is past the warm-up and is at least two copies of its minimal period. */
  ghost predicate Stops<T>(prefix: seq<T>, warmup: int) {
    |prefix| > warmup && |prefix| > 0 && 2 <= MinimalPeriod(prefix) && 2 * MinimalPeriod(prefix) <= |prefix|
  }

  /** The length of the shortest prefix of `t`, of length `from` or more, at which the scan stops. */
  ghost function FirstStop<T>(t: seq<T>, warmup: int, from: nat): (r: Option<nat>)
    ensures r.Some? ==> from <= r.value <= |t| && Stops(t[..r.value], warmup)
    decreases |t| - from
  {
    if from > |t| then None
    else if Stops(t[..from], warmup) then Some(from)
    else FirstStop(t, warmup, from + 1)
  }

  /** No shorter prefix stops, and a scan that finds nothing has seen no stopping prefix. */
  lemma {:induction false} FirstStopIsFirst<T>(t: seq<T>, warmup: int, from: nat)
    ensures var r := FirstStop(t, warmup, from);
            forall l {:trigger t[..l]} :: from <= l < (if r.Some? then r.value else |t| + 1) ==> !Stops(t[..l], warmup)
    decreases |t| - from
  {
    if from <= |t| && !Stops(t[..from], warmup) {
      FirstStopIsFirst(t, warmup, from + 1);
    }
  }

  /** The period a scan from `start` reports: the minimal period of the shortest stopping prefix. */
  ghost function Detection<T>(w: seq<T>, start: nat, warmup: int, maxScan: int): (r: Option<nat>)
    ensures r.Some? ==> 2 <= r.value && start + 2 * r.value <= |w|
  {
    var t := Window(w, start, maxScan);
    match FirstStop(t, warmup, 0)
    case None => None
    case Some(l) => Some(MinimalPeriod(t[..l]))
  }

  lemma SlicesOfPrefix<T>(w: seq<T>, start: nat, n: nat, l: nat, p: nat)
    requires start + n <= |w| && p <= l <= n
    ensures w[start..start + n][..l][..p] == w[start..start + p]
  {
    var x, y := w[start..start + n][..l][..p], w[start..start + p];
    assert forall i :: 0 <= i < p ==> x[i] == w[start + i] && y[i] == w[start + i];
  }

  /** What a detected pattern looks like: primitive, two different symbols, and
      written out twice at the start of the scan. */
  lemma DetectedPattern<T>(w: seq<T>, start: nat, warmup: int, maxScan: int)
    requires Detection(w, start, warmup, maxScan).Some?
    ensures var p := Detection(w, start, warmup, maxScan).value;
            && start + 2 * p <= |w|
            && Primitive(w[start..start + p])
            && (exists i {:trigger w[i]} :: start < i < start + p && w[start] != w[i])
            && w[start..start + p] == w[start + p..start + 2 * p]
  {
    var t := Window(w, start, maxScan);
    var s := t[..FirstStop(t, warmup, 0).value];
    var p := MinimalPeriod(s);
    MinimalPeriodIsMinimal(s);
    MinimalPeriodIsPrimitive(s);
    assert t == w[start..start + |t|];
    var pat, copy := w[start..start + p], w[start + p..start + 2 * p];
    SlicesOfPrefix(w, start, |t|, |s|, p);
    PrimitiveHasTwoLetters(pat);
    var k :| 0 < k < |pat| && pat[0] != pat[k];
    assert w[start] != w[start + k];
    forall i | 0 <= i < p ensures pat[i] == copy[i] {
      assert s[i] == s[i + p];
    }
  }

  /** So the guard against one-symbol patterns never fires. */
  lemma PatternHasTwoSymbols<T>(w: seq<T>, start: nat, warmup: int, maxScan: int)
    requires Detection(w, start, warmup, maxScan).Some?
    ensures |ToSet(w[start..start + Detection(w, start, warmup, maxScan).value])| >= 2
  {
    DetectedPattern(w, start, warmup, maxScan);
    var pat := w[start..start + Detection(w, start, warmup, maxScan).value];
    var i :| start < i < start + |pat| && w[start] != w[i];
    var all, two := ToSet(pat), {pat[0], pat[i - start]};
    assert two <= all;
    assert |all - two| == |all| - |two|;
  }

  // ----- Detection: the scan

  /** `pi[k]` is the longest proper border of the first `k + 1` letters. */
  ghost predicate PrefixTable<T>(t: seq<T>, pi: seq<nat>) {
    |pi| <= |t| && forall k :: 0 <= k < |pi| ==> IsLongestBorder(t[..k + 1], pi[k])
  }

  /** The fall-back loop of the scan: the longest border of one letter more. */
  method NextBorder<T(==)>(w: seq<T>, start: nat, idx: nat, pi: seq<nat>, ghost t: seq<T>) returns (j: nat)
    requires start < idx < start + |t| <= |w| && t == w[start..start + |t|]
    requires |pi| == idx - start && PrefixTable(t, pi)
    ensures IsLongestBorder(t[..idx - start + 1], j)
  {
    var pos := idx - start;
    j := pi[pos - 1];
    while j > 0 && w[idx] != w[start + j]
      invariant j < pos && IsBorder(t[..pos], j)
      invariant forall b :: j < b < pos && IsBorder(t[..pos], b) ==> t[b] != t[pos]
    {
      FallBack(t, pos, j, pi[j - 1]);
      j := pi[j - 1];
    }
    NextLongestBorder(t, pos, j);
    if w[idx] == w[start + j] {
      j := j + 1;
    }
  }

  /** No prefix shorter than `from` stops the scan. */
  ghost predicate Pending<T>(t: seq<T>, warmup: int, from: nat) {
    FirstStop(t, warmup, 0) == FirstStop(t, warmup, from)
  }

  lemma KeepsScanning<T>(t: seq<T>, warmup: int, len: nat, border: nat)
    requires 0 < len <= |t| && Pending(t, warmup, len) && IsLongestBorder(t[..len], border)
    requires len <= warmup || len < 2 * (len - border) || len - border < 2
    ensures Pending(t, warmup, len + 1)
  {
    LongestBorderGivesMinimalPeriod(t[..len], border);
  }

  lemma StopsScanning<T>(w: seq<T>, start: nat, warmup: int, maxScan: int, len: nat, border: nat)
    requires warmup < len && 0 < len <= |Window(w, start, maxScan)|
    requires Pending(Window(w, start, maxScan), warmup, len)
    requires IsLongestBorder(Window(w, start, maxScan)[..len], border)
    requires len >= 2 * (len - border) && len - border >= 2
    ensures Detection(w, start, warmup, maxScan) == Some(len - border)
  {
    LongestBorderGivesMinimalPeriod(Window(w, start, maxScan)[..len], border);
  }

  /** What the scan then reports has two different symbols. */
  lemma StopPattern<T>(w: seq<T>, start: nat, warmup: int, maxScan: int, len: nat, border: nat, period: nat)
    requires warmup < len && 0 < len <= |Window(w, start, maxScan)|
    requires Pending(Window(w, start, maxScan), warmup, len)
    requires IsLongestBorder(Window(w, start, maxScan)[..len], border)
    requires period == len - border && len >= 2 * period && period >= 2
    ensures Detection(w, start, warmup, maxScan) == Some(period) && start + period <= |w|
    ensures |ToSet(w[start..start + period])| >= 2
  {
    StopsScanning(w, start, warmup, maxScan, len, border);
    PatternHasTwoSymbols(w, start, warmup, maxScan);
  }

  /** The block to report; the source skips it when it has fewer than two symbols, which it never has. */
  method PatternAt<T(==)>(w: seq<T>, start: nat, period: nat) returns (pat: seq<T>)
    requires start + period <= |w| && |ToSet(w[start..start + period])| >= 2
    ensures pat == w[start..start + period]
  {
    pat := w[start..start + period];
    var distinct := ToSet(pat);
    if |distinct| < 2 {
      assert false;
    }
  }

  /** Stop at the first length past the warm-up that is covered twice by its minimal period. */
  method TryStop<T(==)>(w: seq<T>, start: nat, warmup: int, ghost maxScan: int, curLen: nat, border: nat)
      returns (r: Option<(seq<T>, nat)>)
    requires 0 < curLen <= |Window(w, start, maxScan)|
    requires Pending(Window(w, start, maxScan), warmup, curLen)
    requires IsLongestBorder(Window(w, start, maxScan)[..curLen], border)
    ensures r.None? ==> Pending(Window(w, start, maxScan), warmup, curLen + 1)
    ensures r.Some? ==>
              && Detection(w, start, warmup, maxScan).Some?
              && r.value == (w[start..start + Detection(w, start, warmup, maxScan).value], start)
  {
    r := None;
    var period := curLen - border;
    if curLen > warmup && curLen >= 2 * period && period >= 2 {
      StopPattern(w, start, warmup, maxScan, curLen, border, period);
      var pat := PatternAt(w, start, period);
      r := Some((pat, start));
    } else {
      KeepsScanning(Window(w, start, maxScan), warmup, curLen, border);
    }
  }

  /** The incremental prefix-function scan. */
  method DetectPattern<T(==)>(w: seq<T>, start: nat, warmup: int, maxScan: int)
      returns (r: Option<(seq<T>, nat)>)
    ensures r.Some? <==> Detection(w, start, warmup, maxScan).Some?
    ensures r.Some? ==> r.value == (w[start..start + Detection(w, start, warmup, maxScan).value], start)
  {
    var n := |w|;
    var scanEnd := Min(start + maxScan, n);
    if start >= scanEnd {
      return None;
    }
    ghost var t := Window(w, start, maxScan);
    assert Pending(t, warmup, 1);
    var pi: seq<nat> := [];
    for idx := start to scanEnd
      invariant |pi| == idx - start
      invariant PrefixTable(t, pi)
      invariant Pending(t, warmup, idx - start + 1)
    {
      var pos := idx - start;
      var j := 0;
      if pos > 0 {
        j := NextBorder(w, start, idx, pi, t);
      }
      assert IsLongestBorder(t[..pos + 1], j);
      pi := pi + [j];

      r := TryStop(w, start, warmup, maxScan, pos + 1, pi[pos]);
      if r.Some? {
        return;
      }
    }
    return None;
  }

  // ----- Matching: the specification

  /** How far the period `p` goes on from index `e`. */
  ghost function RunEnd<T>(w: seq<T>, p: nat, e: nat): (r: nat)
    requires 0 < p <= e <= |w|
    ensures e <= r <= |w|
    ensures r < |w| ==> w[r] != w[r - p]
    decreases |w| - e
  {
    if e == |w| || w[e] != w[e - p] then e else RunEnd(w, p, e + 1)
  }

  lemma {:induction false} RunHasPeriod<T>(w: seq<T>, p: nat, e: nat)
    requires 0 < p <= e <= |w|
    ensures forall i, j {:trigger w[i], w[j]} :: e <= j < RunEnd(w, p, e) && i == j - p ==> w[i] == w[j]
    decreases |w| - e
  {
    if e < |w| && w[e] == w[e - p] {
      RunHasPeriod(w, p, e + 1);
    }
  }

  /** The whole periods of the run `[a, e)`. */
  ghost function Cut(a: nat, p: nat, e: nat): (r: seq<Span>)
    requires p > 0
    decreases e - a
  {
    if a + p > e then [] else [Span(a, a + p)] + Cut(a + p, p, e)
  }

  /** The first index after the whole periods of the run `[a, e)`. */
  ghost function Resume(a: nat, p: nat, e: nat): (r: nat)
    requires p > 0 && a <= e
    ensures a <= r <= e < r + p
    ensures a + p <= e ==> a + p <= r
    decreases e - a
  {
    if a + p > e then a else Resume(a + p, p, e)
  }

  /** A detected run: its period and the index where the period breaks. */
  datatype Run = Run(period: nat, end: nat)

  /** For every start index, the run detection finds there. */
  type Detector = nat -> Option<Run>

  /** Every run lies in the trace and holds its pattern at least twice. */
  ghost predicate Sound(n: nat, det: Detector) {
    forall i: nat :: det(i).Some? ==> var r := det(i).value; 2 <= r.period && i + 2 * r.period <= r.end <= n
  }

  /** Where the next round starts after a run detected at `i`: at the first index the run did not use. */
  ghost function NextStart(n: nat, i: nat, r: Run): (next: nat)
    requires 0 < r.period && i + 2 * r.period <= r.end <= n
    ensures i < next <= n
  {
    if r.end == n then n else Resume(i, r.period, r.end)
  }

  /** From `i` on, every round of the machine detects a run, up to the end of the trace. */
  ghost predicate Gapless(n: nat, i: nat, det: Detector)
    requires Sound(n, det)
    decreases if i < n then n - i else 0
  {
    i >= n || (det(i).Some? && Gapless(n, NextStart(n, i, det(i).value), det))
  }

  /** The machine gets on whenever nothing is detected, or that never happens. */
  ghost predicate Advances(n: nat, i: nat, warmup: int, det: Detector)
    requires Sound(n, det)
  {
    warmup >= 1 || Gapless(n, i, det)
  }

  /** The intervals reported from index `i` on: each detected run is cut into whole
      periods, and detection resumes at the first index the run did not use. */
  ghost function Spans(n: nat, i: nat, warmup: int, det: Detector): seq<Span>
    requires Sound(n, det) && Advances(n, i, warmup, det)
    decreases if i < n then n - i else 0
  {
    if i >= n then []
    else match det(i)
      case None => Spans(n, i + warmup, warmup, det)
      case Some(r) => Cut(i, r.period, r.end) + Spans(n, NextStart(n, i, r), warmup, det)
  }

  /** The index after one round. */
  ghost function AfterRound(n: nat, i: nat, warmup: int, det: Detector): int
    requires Sound(n, det) && i < n
  {
    match det(i)
    case None => i + warmup
    case Some(r) => NextStart(n, i, r)
  }

  /** The index after `k` rounds, or the one at which the machine has ended before. */
  ghost function AfterRounds(n: nat, i: nat, warmup: nat, det: Detector, k: nat): nat
    requires Sound(n, det)
    decreases k
  {
    if k == 0 || i >= n then i else AfterRounds(n, AfterRound(n, i, warmup, det), warmup, det, k - 1)
  }

  lemma {:induction false} ReachesEnd(n: nat, i: nat, warmup: nat, det: Detector) returns (k: nat)
    requires Sound(n, det) && Advances(n, i, warmup, det)
    ensures AfterRounds(n, i, warmup, det, k) >= n
    decreases if i < n then n - i else 0
  {
    if i >= n {
      k := 0;
    } else {
      var rest := ReachesEnd(n, AfterRound(n, i, warmup, det), warmup, det);
      k := rest + 1;
    }
  }

  lemma {:induction false} EndHasNoGaps(n: nat, i: nat, det: Detector, k: nat)
    requires Sound(n, det) && AfterRounds(n, i, 0, det, k) >= n
    ensures Gapless(n, i, det)
    decreases k
  {
    if k == 0 || i >= n {
    } else {
      EndHasNoGaps(n, AfterRound(n, i, 0, det), det, k - 1);
    }
  }

  /** The machine reaches the end of the trace exactly when its warm-up limit is positive
      or every round detects a run. */
  lemma {:induction false} MachineEnds(n: nat, i: nat, warmup: nat, det: Detector)
    requires Sound(n, det)
    ensures (exists k: nat :: AfterRounds(n, i, warmup, det, k) >= n) <==> Advances(n, i, warmup, det)
  {
    if Advances(n, i, warmup, det) {
      var k := ReachesEnd(n, i, warmup, det);
    } else if k: nat :| AfterRounds(n, i, warmup, det, k) >= n {
      EndHasNoGaps(n, i, det, k);
    }
  }

  /** A detected pattern always matches at least twice. */
  lemma RunCoversDetection<T>(w: seq<T>, i: nat, warmup: int, maxScan: int)
    requires Detection(w, i, warmup, maxScan).Some?
    ensures var p := Detection(w, i, warmup, maxScan).value;
            i + 2 * p <= RunEnd(w, p, i + p)
  {
    DetectedPattern(w, i, warmup, maxScan);
    var p := Detection(w, i, warmup, maxScan).value;
    forall j | i + p <= j < i + 2 * p ensures w[j] == w[j - p] {
      assert w[j - p] == w[i..i + p][j - p - i];
      assert w[j] == w[i + p..i + 2 * p][j - p - i];
    }
  }

  ghost function DetectedRun<T>(w: seq<T>, warmup: int, maxScan: int, i: nat): (r: Option<Run>)
  {
    match Detection(w, i, warmup, maxScan)
    case None => None
    case Some(p) => Some(Run(p, RunEnd(w, p, i + p)))
  }

  /** `det` is the detection function of the stream `w`. (Instantiated on demand only.) */
  ghost predicate IsDetector<T>(det: Detector, w: seq<T>, warmup: int, maxScan: int) {
    forall i: nat {:trigger DetectedRun(w, warmup, maxScan, i)} :: det(i) == DetectedRun(w, warmup, maxScan, i)
  }

  lemma DetectorExists<T>(w: seq<T>, warmup: int, maxScan: int)
    ensures exists det: Detector :: IsDetector(det, w, warmup, maxScan) && Sound(|w|, det)
  {
    var det := (i: nat) => DetectedRun(w, warmup, maxScan, i);
    forall i: nat | det(i).Some?
      ensures var r := det(i).value; 2 <= r.period && i + 2 * r.period <= r.end <= |w|
    {
      RunCoversDetection(w, i, warmup, maxScan);
    }
    assert IsDetector(det, w, warmup, maxScan) && Sound(|w|, det);
  }

  ghost function DetectorOf<T>(w: seq<T>, warmup: int, maxScan: int): (det: Detector)
    ensures IsDetector(det, w, warmup, maxScan) && Sound(|w|, det)
  {
    DetectorExists(w, warmup, maxScan);
    var det: Detector :| IsDetector(det, w, warmup, maxScan) && Sound(|w|, det);
    det
  }

  function RenderStep<K>(events: seq<Event<K>>, w: seq<K>, s: Span, idx: nat): Step<K>
    requires s.lo < s.hi <= |events| == |w|
  {
    var endNs := if s.hi < |events| then events[s.hi].ts else events[s.hi - 1].ts;
    Step(idx, w[s.lo..s.hi], events[s.lo].ts, endNs, (endNs - events[s.lo].ts) as real / 1000000.0)
  }

  ghost predicate WithinTrace(n: nat, spans: seq<Span>) {
    forall t :: 0 <= t < |spans| ==> spans[t].lo < spans[t].hi <= n
  }

  /** The steps are the intervals, numbered from 0 and stamped with the times of the trace. */
  ghost predicate Renders<K>(events: seq<Event<K>>, w: seq<K>, spans: seq<Span>, steps: seq<Step<K>>) {
    && |w| == |events| && WithinTrace(|events|, spans) && |steps| == |spans|
    && forall t :: 0 <= t < |steps| ==> steps[t] == RenderStep(events, w, spans[t], t)
  }

  /** What a reported step is: it carries its number, the kinds of the events of its interval,
      the time of the first of them, the time of the first event after them (of the last one
      at the end of the trace), and the time between in milliseconds. */
  ghost predicate Describes<K>(events: seq<Event<K>>, s: Span, t: nat, step: Step<K>) {
    && s.lo < s.hi <= |events|
    && step.idx == t && |step.pattern| == s.hi - s.lo
    && (forall x {:trigger step.pattern[x]} :: 0 <= x < s.hi - s.lo ==> step.pattern[x] == events[s.lo + x].kind)
    && step.startNs == events[s.lo].ts
    && (s.hi < |events| ==> step.endNs == events[s.hi].ts)
    && (s.hi == |events| ==> step.endNs == events[|events| - 1].ts)
    && step.durationMs * 1000000.0 == (step.endNs - step.startNs) as real
  }

  lemma RenderedStep<K>(events: seq<Event<K>>, spans: seq<Span>, steps: seq<Step<K>>, t: nat)
    requires Renders(events, Kinds(events), spans, steps) && t < |steps|
    ensures Describes(events, spans[t], t, steps[t])
  {
    var s := spans[t];
    assert steps[t] == RenderStep(events, Kinds(events), s, t);
  }

  // ----- The machine

  /** The run up to `e` spells `pat` from `s` on, and, unless `s` is where the run starts,
      one period before `s` as well. */
  ghost predicate InPhase<T>(w: seq<T>, pat: seq<T>, a: nat, s: nat, e: nat) {
    && a <= s <= e <= |w| && (s == a ==> a + 2 * |pat| <= e) && (s > a ==> s >= a + |pat|)
    && (forall x {:trigger w[x]} :: s <= x < s + |pat| && x < e ==> w[x] == pat[x - s])
    && (s > a ==> forall x {:trigger w[x]} :: s - |pat| <= x < s ==> w[x] == pat[x - s + |pat|])
  }

  lemma PhaseAdvances<T>(w: seq<T>, pat: seq<T>, a: nat, s: nat, e: nat)
    requires |pat| > 0 && s + |pat| <= e && InPhase(w, pat, a, s, e) && e == RunEnd(w, |pat|, a + |pat|)
    ensures InPhase(w, pat, a, s + |pat|, e)
  {
    var p := |pat|;
    RunHasPeriod(w, p, a + p);
    forall x | s + p <= x < s + 2 * p && x < e ensures w[x] == pat[x - s - p] {
      assert w[x - p] == w[x];
      assert w[x - p] == pat[x - p - s];
    }
  }

  /** The event at position `k` of the pattern matches exactly inside the run. */
  lemma MatchesInRun<T>(w: seq<T>, pat: seq<T>, a: nat, s: nat, e: nat, k: nat)
    requires |pat| > 0 && InPhase(w, pat, a, s, e) && e == RunEnd(w, |pat|, a + |pat|)
    requires k < |pat| && s + k <= e && s + k < |w|
    ensures w[s + k] == pat[k] <==> s + k < e
    ensures w[s + k] != pat[k] ==> s > a && s + k == e
  {
    if s + k == e {
      assert w[e] != w[e - |pat|];
      assert s > a;
      assert w[e - |pat|] == pat[e - |pat| - s + |pat|];
    }
  }

  /** One more whole period is reported. */
  lemma PeriodReported(p: nat, s: nat, e: nat, goal: seq<Span>, spans: seq<Span>)
    requires p > 0 && s + p <= e && goal == spans + Cut(s, p, e)
    ensures goal == (spans + [Span(s, s + p)]) + Cut(s + p, p, e) && Resume(s, p, e) == Resume(s + p, p, e)
  {
    var first, rest := [Span(s, s + p)], Cut(s + p, p, e);
    assert Cut(s, p, e) == first + rest;
    assert spans + (first + rest) == (spans + first) + rest;
  }

  /** Report one whole period that starts at `s`. */
  method Emit<K>(events: seq<Event<K>>, ghost w: seq<K>, pat: seq<K>, ghost a: nat, s: nat, ghost e: nat,
                 ghost spans: seq<Span>, stepsBefore: seq<Step<K>>)
      returns (steps: seq<Step<K>>)
    requires |w| == |events| && InPhase(w, pat, a, s, e) && |pat| > 0 && s + |pat| <= e
    requires Renders(events, w, spans, stepsBefore)
    ensures Renders(events, w, spans + [Span(s, s + |pat|)], steps)
  {
    var i := s + |pat|;
    var startNs := events[s].ts;
    var endNs := if i < |events| then events[i].ts else events[i - 1].ts;
    steps := stepsBefore + [Step(|stepsBefore|, pat, startNs, endNs, (endNs - startNs) as real / 1000000.0)];
    assert w[s..s + |pat|] == pat;
  }

  /** A whole period has been matched: report it, and be in phase for the next one. */
  method FinishPeriod<K>(events: seq<Event<K>>, ghost w: seq<K>, pat: seq<K>, ghost a: nat, s: nat, ghost e: nat,
                         ghost spansBefore: seq<Span>, stepsBefore: seq<Step<K>>, ghost goal: seq<Span>)
      returns (steps: seq<Step<K>>, ghost spans: seq<Span>, next: nat)
    requires |w| == |events| && |pat| > 0 && s + |pat| <= e && InPhase(w, pat, a, s, e)
    requires e == RunEnd(w, |pat|, a + |pat|) && Renders(events, w, spansBefore, stepsBefore)
    requires goal == spansBefore + Cut(s, |pat|, e)
    ensures spans == spansBefore + [Span(s, s + |pat|)] && Renders(events, w, spans, steps)
    ensures |steps| > |stepsBefore| && next == s + |pat| && InPhase(w, pat, a, next, e)
    ensures goal == spans + Cut(next, |pat|, e) && Resume(s, |pat|, e) == Resume(next, |pat|, e)
  {
    steps := Emit(events, w, pat, a, s, e, spansBefore, stepsBefore);
    PhaseAdvances(w, pat, a, s, e);
    PeriodReported(|pat|, s, e, goal, spansBefore);
    spans, next := spansBefore + [Span(s, s + |pat|)], s + |pat|;
  }

  /** The MATCH state: emit whole periods of `pat` from `alignStart` until a mismatch
      or the end of the trace, and say where detection resumes. */
  method MatchPhase<K(==)>(events: seq<Event<K>>, w: seq<K>, pat: seq<K>, alignStart: nat, stepsSoFar: seq<Step<K>>,
                           ghost spansSoFar: seq<Span>, ghost e: nat)
      returns (steps: seq<Step<K>>, i: int, ghost spans: seq<Span>)
    requires |w| == |events| && |pat| > 0 && InPhase(w, pat, alignStart, alignStart, e)
    requires alignStart + |pat| <= |w| && e == RunEnd(w, |pat|, alignStart + |pat|)
    requires Renders(events, w, spansSoFar, stepsSoFar)
    ensures spans == spansSoFar + Cut(alignStart, |pat|, e) && Renders(events, w, spans, steps)
    ensures i == if e == |w| then e else Resume(alignStart, |pat|, e)
  {
    var n := |w|;
    var patLen := |pat|;
    var patPos: nat, stepStart: nat := 0, alignStart;
    steps, i := stepsSoFar, alignStart;
    spans := spansSoFar;
    ghost var goal := spansSoFar + Cut(alignStart, patLen, e);
    while i < n
      invariant i == stepStart + patPos <= e && patPos < patLen
      invariant InPhase(w, pat, alignStart, stepStart, e)
      invariant stepStart > alignStart ==> |steps| > |stepsSoFar|
      invariant Resume(alignStart, patLen, e) == Resume(stepStart, patLen, e)
      invariant Renders(events, w, spans, steps)
      invariant goal == spans + Cut(stepStart, patLen, e)
      decreases n - i
    {
      MatchesInRun(w, pat, alignStart, stepStart, e, patPos);
      if w[i] == pat[patPos] {
        patPos := patPos + 1;
        i := i + 1;
        if patPos == patLen {
          steps, spans, stepStart := FinishPeriod(events, w, pat, alignStart, stepStart, e, spans, steps, goal);
          patPos := 0;
        }
      } else {
        var matched := |steps| - |stepsSoFar|;
        if matched == 0 {
          // The source would skip one pattern length here.
          assert false;
          i := alignStart + patLen;
        } else {
          i := stepStart;
        }
        break;
      }
    }
  }

  /** The same for a pattern found at `alignStart`. */
  method MatchRun<K(==)>(events: seq<Event<K>>, w: seq<K>, pat: seq<K>, alignStart: nat, stepsSoFar: seq<Step<K>>,
                         ghost spansSoFar: seq<Span>, ghost e: nat)
      returns (steps: seq<Step<K>>, i: int, ghost spans: seq<Span>)
    requires |w| == |events| && |pat| > 0 && alignStart + 2 * |pat| <= e <= |w|
    requires pat == w[alignStart..alignStart + |pat|] && e == RunEnd(w, |pat|, alignStart + |pat|)
    requires Renders(events, w, spansSoFar, stepsSoFar)
    ensures spans == spansSoFar + Cut(alignStart, |pat|, e) && Renders(events, w, spans, steps)
    ensures i == if e == |w| then e else Resume(alignStart, |pat|, e)
  {
    steps, i, spans := MatchPhase(events, w, pat, alignStart, stepsSoFar, spansSoFar, e);
  }

  /** The DETECT state, stated through the detection function. */
  method Detect<T(==)>(w: seq<T>, i: nat, warmup: int, maxScan: int, ghost det: Detector)
      returns (r: Option<(seq<T>, nat)>)
    requires IsDetector(det, w, warmup, maxScan) && Sound(|w|, det)
    ensures r.Some? <==> det(i).Some?
    ensures r.Some? ==> var run := det(i).value;
              && r.value == (w[i..i + run.period], i)
              && run.end == RunEnd(w, run.period, i + run.period)
  {
    assert det(i) == DetectedRun(w, warmup, maxScan, i);
    r := DetectPattern(w, i, warmup, maxScan);
  }

  /** What one round reports: the whole periods of the detected run, if there is one. */
  ghost function RoundSpans(n: nat, i: nat, det: Detector): seq<Span>
    requires Sound(n, det)
  {
    match det(i)
    case None => []
    case Some(r) => Cut(i, r.period, r.end)
  }

  /** One round of the machine: skip the warm-up when nothing is detected, otherwise
      report the detected run. */
  method Round<K(==)>(events: seq<Event<K>>, w: seq<K>, warmup: int, maxScan: int, at: nat, stepsSoFar: seq<Step<K>>,
                      ghost spansSoFar: seq<Span>, ghost det: Detector)
      returns (steps: seq<Step<K>>, i: int, ghost spans: seq<Span>)
    requires at < |w| == |events| && Sound(|w|, det) && IsDetector(det, w, warmup, maxScan)
    requires Renders(events, w, spansSoFar, stepsSoFar)
    ensures spans == spansSoFar + RoundSpans(|w|, at, det) && Renders(events, w, spans, steps)
    ensures i == AfterRound(|w|, at, warmup, det)
  {
    var detected := Detect(w, at, warmup, maxScan, det);
    if detected.None? {
      return stepsSoFar, at + warmup, spansSoFar;
    }
    var (pat, alignStart) := detected.value;
    steps, i, spans := MatchRun(events, w, pat, alignStart, stepsSoFar, spansSoFar, det(at).value.end);
  }

  lemma RoundReported(n: nat, i: nat, warmup: int, det: Detector, goal: seq<Span>, spans: seq<Span>)
    requires Sound(n, det) && i < n && Advances(n, i, warmup, det)
    requires goal == spans + Spans(n, i, warmup, det)
    ensures var next := AfterRound(n, i, warmup, det);
            && next > i && Advances(n, next, warmup, det)
            && goal == (spans + RoundSpans(n, i, det)) + Spans(n, next, warmup, det)
  {
  }

  /** The DETECT/MATCH machine on given parameters. */
  method RunMachine<K(==)>(events: seq<Event<K>>, w: seq<K>, warmup: int, maxScan: int, ghost det: Detector)
      returns (steps: seq<Step<K>>)
    requires |w| == |events| && Sound(|w|, det) && IsDetector(det, w, warmup, maxScan) && Advances(|w|, 0, warmup, det)
    ensures Renders(events, w, Spans(|w|, 0, warmup, det), steps)
  {
    ghost var goal, spans := Spans(|w|, 0, warmup, det), [];
    steps := [];
    var i := 0;
    while i < |w|
      invariant i >= 0 && Advances(|w|, i, warmup, det)
      invariant Renders(events, w, spans, steps)
      invariant goal == spans + Spans(|w|, i, warmup, det)
      decreases |w| - i
    {
      RoundReported(|w|, i, warmup, det, goal, spans);
      steps, i, spans := Round(events, w, warmup, maxScan, i, steps, spans, det);
    }
    assert spans + [] == spans;
  }

  /** The warm-up limit, with its default filled in. */
  function WarmupOf(n: nat, warmupLimit: Option<int>): (r: int)
    ensures r < 1 <==> warmupLimit.Some? && warmupLimit.value < 1
  {
    if warmupLimit.None? then Max(3, Min(n / 5, 50)) else warmupLimit.value
  }

  /** How far a scan looks, with the default window filled in. */
  function ScanLimit(n: nat, warmupLimit: Option<int>, windowSize: Option<int>): int {
    var window := if windowSize.None? then Max(6, Min(n / 3, 60)) else windowSize.value;
    WarmupOf(n, warmupLimit) + window * 3
  }

  /** The detection function of a trace, with the default parameters filled in. */
  ghost function StepDetection<K>(events: seq<Event<K>>, warmupLimit: Option<int>,
      windowSize: Option<int>): (det: Detector)
    ensures var n := |events|;
            IsDetector(det, Kinds(events), WarmupOf(n, warmupLimit), ScanLimit(n, warmupLimit, windowSize))
    ensures Sound(|events|, det)
  {
    DetectorOf(Kinds(events), WarmupOf(|events|, warmupLimit), ScanLimit(|events|, warmupLimit, windowSize))
  }

  /** The machine gets through the trace: its warm-up limit is positive (as the default is),
      or no round is without a run. */
  ghost predicate Completes<K>(events: seq<Event<K>>, warmupLimit: Option<int>, windowSize: Option<int>) {
    var warmup := WarmupOf(|events|, warmupLimit);
    Advances(|events|, 0, warmup, StepDetection(events, warmupLimit, windowSize))
  }

  /** For example: with a limit of 0 the machine never leaves the start of a trace of one,
      two or three events, which is too short for a pattern. */
  lemma {:induction false} ShortTraceStalls<K>(events: seq<Event<K>>, windowSize: Option<int>, k: nat)
    requires 1 <= |events| <= 3
    ensures !Completes(events, Some(0), windowSize)
    ensures AfterRounds(|events|, 0, 0, StepDetection(events, Some(0), windowSize), k) == 0
  {
    var det := StepDetection(events, Some(0), windowSize);
    assert det(0) == DetectedRun(Kinds(events), 0, ScanLimit(|events|, Some(0), windowSize), 0);
    if k == 0 {
    } else {
      ShortTraceStalls(events, windowSize, k - 1);
    }
  }

  /** The intervals `detect_steps` reports, with its default parameters filled in. */
  ghost function StepSpans<K>(events: seq<Event<K>>, warmupLimit: Option<int>, windowSize: Option<int>): seq<Span>
    requires Completes(events, warmupLimit, windowSize)
  {
    Spans(|events|, 0, WarmupOf(|events|, warmupLimit), StepDetection(events, warmupLimit, windowSize))
  }

  method DetectSteps<K(==)>(events: seq<Event<K>>, warmupLimit: Option<int>, windowSize: Option<int>)
      returns (steps: seq<Step<K>>)
    requires Completes(events, warmupLimit, windowSize)
    ensures var s := StepSpans(events, warmupLimit, windowSize);
            && Renders(events, Kinds(events), s, steps) && |steps| == |s|
            && forall t :: 0 <= t < |steps| ==> Describes(events, s[t], t, steps[t])
  {
    if events == [] {
      return [];
    }
    var w := Kinds(events);
    var n := |w|;
    var warmup, maxScan := WarmupOf(n, warmupLimit), ScanLimit(n, warmupLimit, windowSize);
    steps := RunMachine(events, w, warmup, maxScan, StepDetection(events, warmupLimit, windowSize));
    ghost var s := StepSpans(events, warmupLimit, windowSize);
    forall t | 0 <= t < |steps| ensures Describes(events, s[t], t, steps[t]) {
      RenderedStep(events, s, steps, t);
    }
  }
}
