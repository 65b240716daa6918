/** What step detection guarantees about a whole trace: the reported intervals are
    ordered and disjoint, every detection yields two or more abutting copies of a
    primitive pattern, and a periodic trace is recovered exactly. */
module StepTheorems {
  import opened Common
  import opened Words
  import opened StepDetector

  // ----- Shape of the reported intervals

  /** Whole periods of one run: abutting, all of length `p`, starting at `a`. */
  lemma {:induction false} CutShape(a: nat, p: nat, e: nat)
    requires p > 0 && a <= e
    ensures var c := Cut(a, p, e);
            && (c != [] <==> a + p <= e) && (a + 2 * p <= e ==> |c| >= 2)
            && (c != [] ==> c[0].lo == a)
            && (forall t :: 0 <= t < |c| ==> a <= c[t].lo && c[t].hi == c[t].lo + p && c[t].hi <= Resume(a, p, e))
            && (forall t, u :: 0 <= t < |c| && u == t + 1 && u < |c| ==> c[t].hi == c[u].lo)
    decreases e - a
  {
    if a + p > e {
    } else {
      CutShape(a + p, p, e);
      var c, d := Cut(a, p, e), Cut(a + p, p, e);
      assert forall t :: 0 < t < |c| ==> c[t] == d[t - 1];
    }
  }

  /** Each interval starts no earlier than the one before it ends. */
  ghost predicate Ordered(spans: seq<Span>) {
    forall t, u :: 0 <= t < u < |spans| ==> spans[t].hi <= spans[u].lo
  }

  lemma {:induction false} CutOrdered(a: nat, p: nat, e: nat)
    requires p > 0 && a <= e
    ensures Ordered(Cut(a, p, e))
    decreases e - a
  {
    if a + p > e {
    } else {
      CutOrdered(a + p, p, e);
      CutShape(a + p, p, e);
      var c, d := Cut(a, p, e), Cut(a + p, p, e);
      assert forall t :: 0 < t < |c| ==> c[t] == d[t - 1];
    }
  }

  lemma OrderedConcat(c: seq<Span>, rest: seq<Span>, cut: nat)
    requires Ordered(c) && Ordered(rest)
    requires forall t :: 0 <= t < |c| ==> c[t].hi <= cut
    requires forall t :: 0 <= t < |rest| ==> cut <= rest[t].lo
    ensures Ordered(c + rest)
  {
  }

  lemma {:induction false} SpansOrdered(n: nat, i: nat, warmup: int, det: Detector)
    requires Sound(n, det) && Advances(n, i, warmup, det)
    ensures var s := Spans(n, i, warmup, det);
            && Ordered(s)
            && forall t :: 0 <= t < |s| ==> i <= s[t].lo && s[t].lo + 2 <= s[t].hi <= n
    decreases if i < n then n - i else 0
  {
    if i >= n {
    } else {
      match det(i)
      case None => SpansOrdered(n, i + warmup, warmup, det);
      case Some(r) =>
        var c, rest := Cut(i, r.period, r.end), Spans(n, NextStart(n, i, r), warmup, det);
        CutShape(i, r.period, r.end);
        CutOrdered(i, r.period, r.end);
        SpansOrdered(n, NextStart(n, i, r), warmup, det);
        OrderedConcat(c, rest, Resume(i, r.period, r.end));
    }
  }

  // ----- Every step spells a primitive pattern, and no step stands alone

  ghost predicate SameWord<T>(w: seq<T>, a: Span, b: Span) {
    a.lo <= a.hi <= |w| && b.lo <= b.hi <= |w| && w[a.lo..a.hi] == w[b.lo..b.hi]
  }

  /** The step before or the step after abuts this one and spells the same word. */
  ghost predicate HasTwin<T>(w: seq<T>, spans: seq<Span>, t: nat)
    requires t < |spans|
  {
    || (t > 0 && spans[t - 1].hi == spans[t].lo && SameWord(w, spans[t - 1], spans[t]))
    || (t + 1 < |spans| && spans[t].hi == spans[t + 1].lo && SameWord(w, spans[t], spans[t + 1]))
  }

  ghost predicate Spelled<T>(w: seq<T>, spans: seq<Span>, t: nat)
    requires t < |spans|
  {
    spans[t].lo < spans[t].hi <= |w| && Primitive(w[spans[t].lo..spans[t].hi]) && HasTwin(w, spans, t)
  }

  ghost predicate AllSpelled<T>(w: seq<T>, spans: seq<Span>) {
    forall t :: 0 <= t < |spans| ==> Spelled(w, spans, t)
  }

  lemma NextCopy<T>(w: seq<T>, p: nat, a: nat, s: nat)
    requires 0 < p && a + p <= |w| && a <= s && s + 2 * p <= RunEnd(w, p, a + p)
    ensures w[s..s + p] == w[s + p..s + 2 * p]
  {
    RunHasPeriod(w, p, a + p);
    var x, y := w[s..s + p], w[s + p..s + 2 * p];
    forall k | 0 <= k < p ensures x[k] == y[k] {
      assert w[s + k] == w[s + p + k];
    }
  }

  ghost predicate PrimitiveSpan<T>(w: seq<T>, p: nat, x: Span) {
    x.lo + p == x.hi <= |w| && Primitive(w[x.lo..x.hi])
  }

  ghost predicate Twins<T>(w: seq<T>, x: Span, y: Span) {
    x.hi == y.lo && SameWord(w, x, y)
  }

  lemma CutTail(s: nat, p: nat, e: nat)
    requires p > 0 && s + 2 * p <= e
    ensures var c, d := Cut(s, p, e), Cut(s + p, p, e);
            && |c| == |d| + 1 >= 2 && c[0] == Span(s, s + p) && c[1] == Span(s + p, s + 2 * p)
            && forall t :: 0 < t < |c| ==> c[t] == d[t - 1]
  {
  }

  /** All copies in a run spell the word of the first. */
  lemma {:induction false} CutSpelled<T>(w: seq<T>, a: nat, p: nat, s: nat, e: nat)
    requires 0 < p && a + p <= |w| && e == RunEnd(w, p, a + p) && a <= s && s + p <= e
    requires Primitive(w[s..s + p])
    ensures var c := Cut(s, p, e);
            && (forall t {:trigger PrimitiveSpan(w, p, c[t])} :: 0 <= t < |c| ==> PrimitiveSpan(w, p, c[t]))
            && (forall t, u {:trigger Twins(w, c[t], c[u])} :: 0 <= t < |c| && u == t + 1 && u < |c| ==>
                Twins(w, c[t], c[u]))
    decreases e - s
  {
    var c, d := Cut(s, p, e), Cut(s + p, p, e);
    assert PrimitiveSpan(w, p, Span(s, s + p));
    if s + 2 * p > e {
    } else {
      NextCopy(w, p, a, s);
      CutSpelled(w, a, p, s + p, e);
      assert Twins(w, Span(s, s + p), Span(s + p, s + 2 * p));
      CutTail(s, p, e);
      forall t | 0 <= t < |c| ensures PrimitiveSpan(w, p, c[t]) {
        assert t > 0 ==> PrimitiveSpan(w, p, d[t - 1]);
      }
      forall t, u | 0 <= t < |c| && u == t + 1 && u < |c| ensures Twins(w, c[t], c[u]) {
        assert t > 0 ==> Twins(w, d[t - 1], d[u - 1]);
      }
    }
  }

  /** Twins survive when more intervals are reported. */
  lemma SpelledConcat<T>(w: seq<T>, c: seq<Span>, rest: seq<Span>)
    requires AllSpelled(w, c) && AllSpelled(w, rest)
    ensures AllSpelled(w, c + rest)
  {
    var all := c + rest;
    forall t | 0 <= t < |all| ensures Spelled(w, all, t) {
      if t < |c| {
        assert Spelled(w, c, t);
        assert t > 0 ==> all[t - 1] == c[t - 1];
      } else {
        assert Spelled(w, rest, t - |c|);
        assert t - |c| > 0 ==> all[t - 1] == rest[t - |c| - 1];
      }
    }
  }

  lemma RunTwins<T>(w: seq<T>, i: nat, p: nat, e: nat)
    requires 0 < p && i + 2 * p <= e <= |w| && e == RunEnd(w, p, i + p) && Primitive(w[i..i + p])
    ensures AllSpelled(w, Cut(i, p, e))
  {
    var c := Cut(i, p, e);
    CutSpelled(w, i, p, i, e);
    CutShape(i, p, e);
    forall t | 0 <= t < |c| ensures Spelled(w, c, t) {
      assert PrimitiveSpan(w, p, c[t]);
      if t > 0 {
        assert Twins(w, c[t - 1], c[t]);
      } else {
        assert Twins(w, c[t], c[t + 1]);
      }
    }
  }

  lemma RunSpelled<T>(w: seq<T>, i: nat, warmup: int, maxScan: int)
    requires Detection(w, i, warmup, maxScan).Some?
    ensures var p := Detection(w, i, warmup, maxScan).value;
            AllSpelled(w, Cut(i, p, RunEnd(w, p, i + p)))
  {
    var p := Detection(w, i, warmup, maxScan).value;
    DetectedPattern(w, i, warmup, maxScan);
    RunCoversDetection(w, i, warmup, maxScan);
    RunTwins(w, i, p, RunEnd(w, p, i + p));
  }

  lemma DetectedRunSpelled<T>(w: seq<T>, i: nat, warmup: int, maxScan: int, det: Detector)
    requires IsDetector(det, w, warmup, maxScan) && det(i).Some? && det(i).value.period > 0
    ensures AllSpelled(w, Cut(i, det(i).value.period, det(i).value.end))
  {
    assert det(i) == DetectedRun(w, warmup, maxScan, i);
    RunSpelled(w, i, warmup, maxScan);
  }

  lemma {:induction false} SpansSpelled<T>(w: seq<T>, i: nat, warmup: int, maxScan: int, det: Detector)
    requires Sound(|w|, det) && IsDetector(det, w, warmup, maxScan) && Advances(|w|, i, warmup, det)
    ensures AllSpelled(w, Spans(|w|, i, warmup, det))
    decreases if i < |w| then |w| - i else 0
  {
    if i >= |w| {
    } else {
      match det(i)
      case None => SpansSpelled(w, i + warmup, warmup, maxScan, det);
      case Some(r) =>
        DetectedRunSpelled(w, i, warmup, maxScan, det);
        SpansSpelled(w, NextStart(|w|, i, r), warmup, maxScan, det);
        SpelledConcat(w, Cut(i, r.period, r.end), Spans(|w|, NextStart(|w|, i, r), warmup, det));
    }
  }

  /** The reported steps: disjoint intervals in trace order, each spelling a primitive
      pattern of two or more events, none of them without an abutting copy. */
  lemma StepsAreRuns<K>(events: seq<Event<K>>, warmupLimit: Option<int>, windowSize: Option<int>)
    requires Completes(events, warmupLimit, windowSize)
    ensures var s := StepSpans(events, warmupLimit, windowSize);
            && Ordered(s)
            && (forall t :: 0 <= t < |s| ==> s[t].lo + 2 <= s[t].hi <= |events|)
            && AllSpelled(Kinds(events), s)
  {
    var n := |events|;
    var warmup, maxScan := WarmupOf(n, warmupLimit), ScanLimit(n, warmupLimit, windowSize);
    var w := Kinds(events);
    var det := StepDetection(events, warmupLimit, windowSize);
    SpansOrdered(n, 0, warmup, det);
    SpansSpelled(w, 0, warmup, maxScan, det);
  }

  ghost predicate SortedByTime<K>(events: seq<Event<K>>) {
    forall i, j :: 0 <= i < j < |events| ==> events[i].ts <= events[j].ts
  }

  /** In time: a step ends where an abutting step starts, no step starts before the
      previous one ends, and no duration is negative. */
  lemma StepsInTime<K>(events: seq<Event<K>>, spans: seq<Span>, steps: seq<Step<K>>)
    requires SortedByTime(events) && Renders(events, Kinds(events), spans, steps) && Ordered(spans)
    ensures forall t, u :: 0 <= t < u < |steps| ==> steps[t].endNs <= steps[u].startNs
    ensures forall t, u :: 0 <= t < |steps| && u == t + 1 && u < |steps| && spans[t].hi == spans[u].lo ==>
              steps[t].endNs == steps[u].startNs
    ensures forall t :: 0 <= t < |steps| ==> steps[t].startNs <= steps[t].endNs && steps[t].durationMs >= 0.0
  {
    forall t | 0 <= t < |steps|
      ensures steps[t].startNs == events[spans[t].lo].ts
      ensures steps[t].endNs == events[if spans[t].hi < |events| then spans[t].hi else spans[t].hi - 1].ts
      ensures steps[t].startNs <= steps[t].endNs && steps[t].durationMs >= 0.0
    {
    }
    forall t, u | 0 <= t < u < |steps| ensures steps[t].endNs <= steps[u].startNs {
      assert spans[t].hi <= spans[u].lo < |events|;
    }
  }
}
