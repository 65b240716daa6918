/** Exact recovery: on a trace that repeats a primitive block, step detection reports
    one step per copy of the block, provided the warm-up is long enough for the block
    to be seen twice; otherwise it can lock on to a shorter repetition. */
module StepRecovery {
  import opened Common
  import opened Division
  import opened Words
  import opened StepDetector
  import opened StepTheorems

  /** The interval of copy number `t`, counting from 0, of a block of length `p`. */
  function CopySpan(p: nat, t: nat): Span {
    Span(t * p, t * p + p)
  }

  /** `w` is copies of `block`, the last one possibly cut short. */
  ghost predicate Repeats<T>(w: seq<T>, block: seq<T>) {
    0 < |block| <= |w| && w[..|block|] == block && HasPeriod(w, |block|)
  }

  lemma PrefixRepeats<T>(w: seq<T>, block: seq<T>, len: nat)
    requires Repeats(w, block) && |block| <= len <= |w|
    ensures HasPeriod(w[..len], |block|) && w[..len][..|block|] == block
  {
    var p, s := |block|, w[..len];
    assert s[..p] == w[..p];
    forall i, j | 0 <= i < j < |s| && j - i == p ensures s[i] == s[j] {
      assert w[i] == w[j];
    }
  }

  /** Once two copies are in view the minimal period is the block length. */
  lemma TwoCopiesStop<T>(w: seq<T>, block: seq<T>, warmup: int, len: nat)
    requires Repeats(w, block) && Primitive(block) && |block| >= 2
    requires 2 * |block| <= len <= |w| && warmup < len
    ensures MinimalPeriod(w[..len]) == |block| && Stops(w[..len], warmup)
  {
    PrefixRepeats(w, block, len);
    PrimitiveBlockIsMinimalPeriod(w[..len], |block|);
  }

  /** No prefix past the warm-up but shorter than two blocks is itself a doubled repetition. */
  ghost predicate NoFalseStart<T>(w: seq<T>, block: seq<T>, warmup: int) {
    forall l {:trigger w[..l]} :: 0 <= l <= |w| && warmup < l < 2 * |block| ==> !Stops(w[..l], warmup)
  }

  lemma {:induction false} FirstStopReached<T>(t: seq<T>, warmup: int, from: nat, len: nat)
    requires from <= len <= |t| && Stops(t[..len], warmup)
    requires forall l {:trigger t[..l]} :: from <= l < len ==> !Stops(t[..l], warmup)
    ensures FirstStop(t, warmup, from) == Some(len)
    decreases len - from
  {
    if from >= len {
    } else {
      FirstStopReached(t, warmup, from + 1, len);
    }
  }

  lemma WindowPrefix<T>(w: seq<T>, maxScan: int, l: nat)
    requires l <= |Window(w, 0, maxScan)|
    ensures l <= |w| && Window(w, 0, maxScan)[..l] == w[..l]
  {
  }

  /** Detection at the start finds the block exactly when the scan can see two copies
      of it past the warm-up and nothing shorter stops it first. */
  lemma DetectsBlock<T>(w: seq<T>, block: seq<T>, warmup: int, maxScan: int)
    requires Repeats(w, block) && Primitive(block) && |block| >= 2
    requires Max(warmup + 1, 2 * |block|) <= Min(maxScan, |w|) && NoFalseStart(w, block, warmup)
    ensures Detection(w, 0, warmup, maxScan) == Some(|block|)
  {
    var t := Window(w, 0, maxScan);
    var len := Max(warmup + 1, 2 * |block|);
    TwoCopiesStop(w, block, warmup, len);
    WindowPrefix(w, maxScan, len);
    forall l {:trigger t[..l]} | 0 <= l < len ensures !Stops(t[..l], warmup) {
      WindowPrefix(w, maxScan, l);
      assert |w[..l]| == l;
    }
    FirstStopReached(t, warmup, 0, len);
  }

  lemma BlockDetected<T>(w: seq<T>, block: seq<T>, warmup: int, maxScan: int)
    requires Repeats(w, block)
    requires Detection(w, 0, warmup, maxScan) == Some(|block|)
    ensures Max(warmup + 1, 2 * |block|) <= Min(maxScan, |w|) && NoFalseStart(w, block, warmup)
  {
    var t := Window(w, 0, maxScan);
    var len := FirstStop(t, warmup, 0).value;
    FirstStopIsFirst(t, warmup, 0);
    forall l {:trigger w[..l]} | 0 <= l <= |w| && warmup < l < 2 * |block| ensures !Stops(w[..l], warmup) {
      WindowPrefix(w, maxScan, l);
      assert !Stops(t[..l], warmup);
    }
  }

  lemma {:induction false} CutLength(a: nat, p: nat, e: nat)
    requires p > 0 && a <= e
    ensures |Cut(a, p, e)| == (e - a) / p
    decreases e - a
  {
    if a + p > e {
    } else {
      CutLength(a + p, p, e);
      OneMore(e - a - p, p);
    }
  }

  lemma {:induction false} CutPosition(a: nat, p: nat, e: nat, t: nat)
    requires p > 0 && a <= e && t < |Cut(a, p, e)|
    ensures Cut(a, p, e)[t] == Span(a + t * p, a + t * p + p)
    decreases t
  {
    if t == 0 {
    } else {
      CutPosition(a + p, p, e, t - 1);
      assert (t - 1) * p == t * p - p;
    }
  }

  /** One interval per whole copy, the `t`-th at `t` block lengths. */
  lemma {:induction false} CutCounts(a: nat, p: nat, e: nat)
    requires p > 0 && a <= e
    ensures |Cut(a, p, e)| == (e - a) / p
    ensures forall t :: 0 <= t < |Cut(a, p, e)| ==>
              Cut(a, p, e)[t] == Span(a + t * p, a + t * p + p)
  {
    CutLength(a, p, e);
    forall t | 0 <= t < |Cut(a, p, e)| ensures Cut(a, p, e)[t] == Span(a + t * p, a + t * p + p) {
      CutPosition(a, p, e, t);
    }
  }

  /** Detection at the start finds the block exactly when the report is one step per copy. */
  lemma ReportIffDetected<T>(w: seq<T>, block: seq<T>, warmup: int, maxScan: int, det: Detector)
    requires Repeats(w, block) && Sound(|w|, det) && IsDetector(det, w, warmup, maxScan)
    requires Advances(|w|, 0, warmup, det)
    ensures Spans(|w|, 0, warmup, det) == Cut(0, |block|, |w|)
       <==> Detection(w, 0, warmup, maxScan) == Some(|block|)
  {
    var p, n := |block|, |w|;
    assert det(0) == DetectedRun(w, warmup, maxScan, 0);
    CutShape(0, p, n);
    if det(0).None? {
      SpansOrdered(n, warmup, warmup, det);
    } else {
      var r := det(0).value;
      CutShape(0, r.period, r.end);
      assert r.period == p ==> Spans(n, NextStart(n, 0, r), warmup, det) == [];
    }
  }

  /** The report of a repetition is exactly one step per copy of the block if and only if
      the scan window holds two copies past the warm-up and no false start comes first. */
  lemma RecoveryCondition<T>(w: seq<T>, block: seq<T>, warmup: int, maxScan: int, det: Detector)
    requires Repeats(w, block) && Primitive(block) && |block| >= 2
    requires Sound(|w|, det) && IsDetector(det, w, warmup, maxScan) && Advances(|w|, 0, warmup, det)
    ensures Spans(|w|, 0, warmup, det) == Cut(0, |block|, |w|)
       <==> Max(warmup + 1, 2 * |block|) <= Min(maxScan, |w|) && NoFalseStart(w, block, warmup)
  {
    ReportIffDetected(w, block, warmup, maxScan, det);
    if Max(warmup + 1, 2 * |block|) <= Min(maxScan, |w|) && NoFalseStart(w, block, warmup) {
      DetectsBlock(w, block, warmup, maxScan);
    }
    if Detection(w, 0, warmup, maxScan) == Some(|block|) {
      BlockDetected(w, block, warmup, maxScan);
    }
  }

  lemma {:induction false} RepeatedLetter<T>(w: seq<T>, p: nat, t: nat, k: nat)
    requires HasPeriod(w, p) && k < p && t * p + k < |w|
    ensures w[t * p + k] == w[k]
  {
    if t == 0 {
    } else {
      assert t * p == (t - 1) * p + p;
      assert (t - 1) * p >= 0;
      RepeatedLetter(w, p, t - 1, k);
      var i, j := (t - 1) * p + k, t * p + k;
      assert w[i] == w[j];
    }
  }

  lemma CopySpellsBlock<T>(w: seq<T>, block: seq<T>, s: Span, t: nat)
    requires Repeats(w, block) && s == Span(t * |block|, t * |block| + |block|) && s.hi <= |w|
    ensures w[s.lo..s.hi] == block
  {
    forall k | 0 <= k < |block| ensures w[s.lo..s.hi][k] == block[k] {
      RepeatedLetter(w, |block|, t, k);
      assert w[k] == w[..|block|][k];
    }
  }

  /** The report is one step per whole copy, each spelling the block. */
  ghost predicate Recovered<K>(events: seq<Event<K>>, block: seq<K>, spans: seq<Span>)
    requires |block| > 0
  {
    && |spans| == |events| / |block|
    && forall t {:trigger CopySpan(|block|, t)} :: 0 <= t < |spans| ==>
         && spans[t] == CopySpan(|block|, t)
         && spans[t].hi <= |events|
         && Kinds(events)[spans[t].lo..spans[t].hi] == block
  }

  lemma {:induction false} CutRecovers<K>(events: seq<Event<K>>, block: seq<K>)
    requires Repeats(Kinds(events), block)
    ensures Recovered(events, block, Cut(0, |block|, |events|))
  {
    var c := Cut(0, |block|, |events|);
    CutCounts(0, |block|, |events|);
    CutShape(0, |block|, |events|);
    forall t {:trigger CopySpan(|block|, t)} | 0 <= t < |c|
      ensures c[t] == CopySpan(|block|, t) && c[t].hi <= |events| && Kinds(events)[c[t].lo..c[t].hi] == block
    {
      CopySpellsBlock(Kinds(events), block, c[t], t);
    }
  }

  /** Recovery fixes the report: it is the cut of the whole trace into blocks. */
  lemma {:induction false} RecoveredIsCut<K>(events: seq<Event<K>>, block: seq<K>, spans: seq<Span>)
    requires Repeats(Kinds(events), block)
    ensures Recovered(events, block, spans) <==> spans == Cut(0, |block|, |events|)
  {
    var p := |block|;
    var c := Cut(0, p, |events|);
    CutRecovers(events, block);
    if Recovered(events, block, spans) {
      forall t | 0 <= t < |spans| ensures spans[t] == c[t] {
        assert spans[t] == CopySpan(p, t) && c[t] == CopySpan(p, t);
      }
    }
  }

  /** Whatever the limits, default or given: the steps reported on a repetition of a primitive
      block are its copies if and only if a scan can see two of them past the warm-up, and no
      shorter prefix past the warm-up is itself a repetition. */
  lemma {:induction false} StepsRecovered<K>(events: seq<Event<K>>, block: seq<K>,
                                             warmupLimit: Option<int>, windowSize: Option<int>)
    requires Completes(events, warmupLimit, windowSize)
    requires Repeats(Kinds(events), block) && Primitive(block) && |block| >= 2
    ensures Recovered(events, block, StepSpans(events, warmupLimit, windowSize)) <==>
              && Max(WarmupOf(|events|, warmupLimit) + 1, 2 * |block|)
                   <= Min(ScanLimit(|events|, warmupLimit, windowSize), |events|)
              && NoFalseStart(Kinds(events), block, WarmupOf(|events|, warmupLimit))
  {
    RecoveredIsCut(events, block, StepSpans(events, warmupLimit, windowSize));
    RecoveryCondition(Kinds(events), block, WarmupOf(|events|, warmupLimit),
                      ScanLimit(|events|, warmupLimit, windowSize), StepDetection(events, warmupLimit, windowSize));
  }

  lemma LongWarmupHasNoFalseStart<T>(w: seq<T>, block: seq<T>, warmup: int)
    requires 2 * |block| <= warmup + 1
    ensures NoFalseStart(w, block, warmup)
  {
  }

  /** With a warm-up of nearly two blocks or more, every repetition of a primitive block is
      recovered exactly. */
  lemma {:induction false} ExactRecovery<K>(events: seq<Event<K>>, block: seq<K>, warmup: int, window: int)
    requires window >= 1
    requires Repeats(Kinds(events), block) && Primitive(block) && |block| >= 2
    requires 2 * |block| <= warmup + 1 <= |events|
    ensures Recovered(events, block, StepSpans(events, Some(warmup), Some(window)))
  {
    LongWarmupHasNoFalseStart(Kinds(events), block, warmup);
    StepsRecovered(events, block, Some(warmup), Some(window));
  }

  /** With the default parameters, ten copies of a block of up to 25 events are enough. */
  lemma {:induction false} DefaultRecovery<K>(events: seq<Event<K>>, block: seq<K>)
    requires Repeats(Kinds(events), block) && Primitive(block) && 2 <= |block| <= 25
    requires |events| >= 10 * |block|
    ensures Recovered(events, block, StepSpans(events, None, None))
  {
    LongWarmupHasNoFalseStart(Kinds(events), block, WarmupOf(|events|, None));
    StepsRecovered(events, block, None, None);
  }

  /** Two copies of the primitive block 0 1 0 1 2: the first four events are a repetition. */
  lemma FalseStart(w: seq<int>)
    requires w == [0, 1, 0, 1, 2, 0, 1, 0, 1, 2]
    ensures Repeats(w, [0, 1, 0, 1, 2]) && Primitive([0, 1, 0, 1, 2]) && Stops(w[..4], 3)
  {
    var block := [0, 1, 0, 1, 2];
    assert w[..5] == block;
    var s := w[..4];
    assert s == [0, 1, 0, 1];
    assert IsBorder(s, 2);
    assert s[0] != s[3] && s[0] == 0 && s[1] == 1;
    assert !IsBorder(s, 3) by {
      assert s[0] != s[1];
    }
    LongestBorderGivesMinimalPeriod(s, 2);
    forall d | 0 < d < 5 && 5 % d == 0 ensures !HasPeriod(block, d) {
      assert block[0] != block[d] || block[4] != block[4 - d];
    }
  }

  lemma FalsePattern(w: seq<int>, maxScan: int)
    requires w == [0, 1, 0, 1, 2, 0, 1, 0, 1, 2] && maxScan >= 4
    ensures Detection(w, 0, 3, maxScan) == Some(2)
  {
    var t := Window(w, 0, maxScan);
    var s := t[..4];
    assert s == [0, 1, 0, 1];
    assert IsBorder(s, 2);
    assert !IsBorder(s, 3) by {
      assert s[0] != s[1];
    }
    assert Pending(t, 3, 1) && Pending(t, 3, 2) && Pending(t, 3, 3) && Pending(t, 3, 4);
    StopsScanning(w, 0, 3, maxScan, 4, 2);
  }

  /** With a warm-up shorter than that, the scan can lock on to a shorter repetition. On two
      copies of the primitive block 0 1 0 1 2, a warm-up of 3, which is also the default for
      ten events, does so: the pattern found is 0 1, and the steps are not the copies. */
  lemma ShortWarmupMisleads(events: seq<Event<int>>, warmupLimit: Option<int>, windowSize: Option<int>)
    requires Kinds(events) == [0, 1, 0, 1, 2, 0, 1, 0, 1, 2] && warmupLimit in {None, Some(3)}
    ensures var w := Kinds(events);
            && Repeats(w, [0, 1, 0, 1, 2]) && Primitive([0, 1, 0, 1, 2])
            && (forall maxScan :: maxScan >= 4 ==> Detection(w, 0, 3, maxScan) == Some(2))
            && !Recovered(events, [0, 1, 0, 1, 2], StepSpans(events, warmupLimit, windowSize))
  {
    var w, block := Kinds(events), [0, 1, 0, 1, 2];
    FalseStart(w);
    StepsRecovered(events, block, warmupLimit, windowSize);
    assert 3 < 4 < 2 * |block| && Stops(w[..4], 3);
    forall maxScan | maxScan >= 4 ensures Detection(w, 0, 3, maxScan) == Some(2) {
      FalsePattern(w, maxScan);
    }
  }
}
