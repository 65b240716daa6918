/** What happened to each job of the worker pool, read off the steps of an execution: who drew
    it, what was decided about it, which code its run returned, and what that means for the
    exit code. */
module PoolHistory {
  import opened Common
  import opened WorkerPool

  predicate StepOf(step: Step, w: nat) {
    (step.Take? || step.Look? || step.Return? || step.Put?) && step.w == w
  }

  /** Worker `w` takes no step in `[a, b)`. */
  ghost predicate Quiet(steps: seq<Step>, w: nat, a: nat, b: nat) {
    forall i :: a <= i < b && i < |steps| ==> !StepOf(steps[i], w)
  }

  // ----- The order of the queues

  /** What a step draws from the input queue. */
  ghost function DrawnBy(s: State, step: Step): seq<Job> {
    if step.Take? && s.input != [] then [s.input[0]] else []
  }

  /** The records drawn so far, in order. */
  ghost function Drawn(states: seq<State>, steps: seq<Step>, n: nat): seq<Job>
    requires n <= |steps| < |states|
  {
    if n == 0 then [] else Drawn(states, steps, n - 1) + DrawnBy(states[n - 1], steps[n - 1])
  }

  ghost function Repeat(j: Job, n: nat): (s: seq<Job>)
    ensures |s| == n && forall i :: 0 <= i < n ==> s[i] == j
  {
    seq(n, _ => j)
  }

  /** What a step puts on the output queue. */
  ghost function HandedBy(s: State, step: Step): seq<Job> {
    if step.Put? && step.w < |s.workers| && s.workers[step.w].Done? then [s.workers[step.w].job] else []
  }

  /** The records put so far, in order. */
  ghost function HandedIn(states: seq<State>, steps: seq<Step>, n: nat): seq<Job>
    requires n <= |steps| < |states|
  {
    if n == 0 then [] else HandedIn(states, steps, n - 1) + HandedBy(states[n - 1], steps[n - 1])
  }

  /** All records in the order in which they are drawn: those drawn already, those in the queue,
      and those still to come. */
  ghost function Line(drawn: seq<Job>, input: seq<Job>, toDispatch: seq<Job>, sentinels: nat): seq<Job> {
    drawn + (input + (toDispatch + Repeat(SENTINEL, sentinels)))
  }

  lemma DispatchKeepsLine(drawn: seq<Job>, input: seq<Job>, toDispatch: seq<Job>, sentinels: nat)
    requires toDispatch != []
    ensures Line(drawn, input + [toDispatch[0]], toDispatch[1..], sentinels)
         == Line(drawn, input, toDispatch, sentinels)
  {
    var rest := Repeat(SENTINEL, sentinels);
    assert toDispatch == [toDispatch[0]] + toDispatch[1..];
    assert (input + [toDispatch[0]]) + (toDispatch[1..] + rest) == input + (toDispatch + rest);
  }

  lemma SentinelKeepsLine(drawn: seq<Job>, input: seq<Job>, sentinels: nat)
    requires sentinels > 0
    ensures Line(drawn, input + [SENTINEL], [], sentinels - 1) == Line(drawn, input, [], sentinels)
  {
    assert Repeat(SENTINEL, sentinels) == [SENTINEL] + Repeat(SENTINEL, sentinels - 1);
    assert (input + [SENTINEL]) + ([] + Repeat(SENTINEL, sentinels - 1)) == input + ([] + Repeat(SENTINEL, sentinels));
  }

  lemma TakeKeepsLine(drawn: seq<Job>, input: seq<Job>, toDispatch: seq<Job>, sentinels: nat)
    requires input != []
    ensures Line(drawn + [input[0]], input[1..], toDispatch, sentinels) == Line(drawn, input, toDispatch, sentinels)
  {
    var rest := toDispatch + Repeat(SENTINEL, sentinels);
    assert input == [input[0]] + input[1..];
    assert (drawn + [input[0]]) + (input[1..] + rest) == drawn + (input + rest);
  }

  lemma StepKeepsLine(c: Config, s: State, step: Step, drawn: seq<Job>)
    requires Enabled(c, s, step)
    ensures var t := Apply(c, s, step);
            Line(drawn + DrawnBy(s, step), t.input, t.toDispatch, t.sentinelsToSend) ==
              Line(drawn, s.input, s.toDispatch, s.sentinelsToSend)
  {
    assert drawn + [] == drawn;
    match step
    case Dispatch => DispatchKeepsLine(drawn, s.input, s.toDispatch, s.sentinelsToSend);
    case SendSentinel => SentinelKeepsLine(drawn, s.input, s.sentinelsToSend);
    case Take(w) => TakeKeepsLine(drawn, s.input, s.toDispatch, s.sentinelsToSend);
    case _ =>
  }

  lemma {:induction false} LineKept(c: Config, states: seq<State>, steps: seq<Step>, n: nat)
    requires Execution(c, states, steps) && n <= |steps|
    ensures Line(Drawn(states, steps, n), states[n].input, states[n].toDispatch, states[n].sentinelsToSend)
         == c.jobs + Repeat(SENTINEL, c.processors)
  {
    if n == 0 {
      assert Line([], [], c.jobs, c.processors) == c.jobs + Repeat(SENTINEL, c.processors);
    } else {
      LineKept(c, states, steps, n - 1);
      assert states[n - 1 + 1] == Apply(c, states[n - 1], steps[n - 1]);
      StepKeepsLine(c, states[n - 1], steps[n - 1], Drawn(states, steps, n - 1));
    }
  }

  /** Workers draw the jobs in the order of dispatch, and sentinels after them. */
  lemma {:induction false} DrawnInOrder(c: Config, states: seq<State>, steps: seq<Step>, n: nat, k: nat)
    requires Execution(c, states, steps) && n <= |steps| && k < |Drawn(states, steps, n)|
    ensures k < |c.jobs| ==> Drawn(states, steps, n)[k] == c.jobs[k]
    ensures k >= |c.jobs| ==> Drawn(states, steps, n)[k] == SENTINEL
  {
    LineKept(c, states, steps, n);
    var drawn := Drawn(states, steps, n);
    var line := Line(drawn, states[n].input, states[n].toDispatch, states[n].sentinelsToSend);
    assert drawn[k] == line[k];
  }

  lemma StepHandsIn(c: Config, s: State, step: Step, before: seq<Job>)
    requires Enabled(c, s, step) && before == s.collected + s.output
    ensures var t := Apply(c, s, step);
            before + HandedBy(s, step) == t.collected + t.output
  {
    match step
    case Collect => assert s.output == [s.output[0]] + s.output[1..];
    case Put(w) => assert before + [s.workers[w].job] == s.collected + (s.output + [s.workers[w].job]);
    case _ =>
  }

  /** The main thread collects the records in the order in which they are put. */
  lemma {:induction false} CollectedInOrder(c: Config, states: seq<State>, steps: seq<Step>, n: nat)
    requires Execution(c, states, steps) && n <= |steps|
    ensures HandedIn(states, steps, n) == states[n].collected + states[n].output
  {
    if n == 0 {
    } else {
      CollectedInOrder(c, states, steps, n - 1);
      assert states[n - 1 + 1] == Apply(c, states[n - 1], steps[n - 1]);
      StepHandsIn(c, states[n - 1], steps[n - 1], HandedIn(states, steps, n - 1));
    }
  }

  // ----- The turns of a worker

  /** The turn of worker `w` that ends before `n`: it drew a job at `t` and looked at it at `l`.
      With the exit flag set by then the job is broken; a job to be skipped stays as it is;
      any other is run, and carries the code the run returned at `r`. */
  ghost predicate Turn(states: seq<State>, steps: seq<Step>, w: nat, t: nat, l: nat, r: Option<nat>, n: nat, job: Job)
    requires n <= |steps| < |states|
  {
    && t < l < n && steps[t] == Take(w) && steps[l] == Look(w) && Quiet(steps, w, t + 1, l)
    && states[t].input != [] && !states[t].input[0].isBreak
    && var drawn := states[t].input[0];
       if states[l].threadExit then r == None && job == drawn.(isBreak := true) && Quiet(steps, w, l + 1, n)
       else if drawn.isSkip then r == None && job == drawn && Quiet(steps, w, l + 1, n)
       else
         && r.Some? && l < r.value < n && steps[r.value].Return? && steps[r.value].w == w
         && job == drawn.(returncode := steps[r.value].code)
         && Quiet(steps, w, l + 1, r.value) && Quiet(steps, w, r.value + 1, n)
  }

  ghost predicate Drew(states: seq<State>, steps: seq<Step>, w: nat, t: nat, n: nat, j: Job)
    requires n <= |steps| < |states|
  {
    t < n && steps[t] == Take(w) && Quiet(steps, w, t + 1, n) && states[t].input != [] && j == states[t].input[0]
  }

  ghost predicate Started(states: seq<State>, steps: seq<Step>, w: nat, t: nat, l: nat, n: nat, j: Job)
    requires n <= |steps| < |states|
  {
    && t < l < n && Drew(states, steps, w, t, l, j) && steps[l] == Look(w) && Quiet(steps, w, l + 1, n)
    && !j.isBreak && !j.isSkip && !states[l].threadExit
  }

  /** What a worker holds after `n` steps is explained by its own last steps. */
  ghost predicate Explained(states: seq<State>, steps: seq<Step>, w: nat, n: nat)
    requires n <= |steps| < |states| && w < |states[n].workers|
  {
    match states[n].workers[w]
    case Idle => true
    case Exited => true
    case Got(j) => exists t: nat :: Drew(states, steps, w, t, n, j)
    case Busy(j) => exists t: nat, l: nat :: Started(states, steps, w, t, l, n, j)
    case Done(j) => exists t: nat, l: nat, r: Option<nat> :: Turn(states, steps, w, t, l, r, n, j)
  }

  lemma QuietLonger(steps: seq<Step>, w: nat, a: nat, n: nat)
    requires n < |steps| && Quiet(steps, w, a, n) && !StepOf(steps[n], w)
    ensures Quiet(steps, w, a, n + 1)
  {
  }

  /** A step of another thread changes nothing about it. */
  lemma StillExplained(c: Config, states: seq<State>, steps: seq<Step>, w: nat, n: nat)
    requires Execution(c, states, steps) && n < |steps| && w < |states[n].workers|
    requires Explained(states, steps, w, n) && !StepOf(steps[n], w)
    ensures w < |states[n + 1].workers| && Explained(states, steps, w, n + 1)
  {
    assert states[n + 1] == Apply(c, states[n], steps[n]);
    assert states[n + 1].workers[w] == states[n].workers[w];
    match states[n].workers[w]
    case Idle =>
    case Exited =>
    case Got(j) =>
      var t: nat :| Drew(states, steps, w, t, n, j);
      QuietLonger(steps, w, t + 1, n);
      assert Drew(states, steps, w, t, n + 1, j);
    case Busy(j) =>
      var t: nat, l: nat :| Started(states, steps, w, t, l, n, j);
      QuietLonger(steps, w, l + 1, n);
      assert Started(states, steps, w, t, l, n + 1, j);
    case Done(j) =>
      var t: nat, l: nat, r: Option<nat> :| Turn(states, steps, w, t, l, r, n, j);
      QuietLonger(steps, w, if r.Some? then r.value + 1 else l + 1, n);
      assert Turn(states, steps, w, t, l, r, n + 1, j);
  }

  lemma LookExplained(c: Config, states: seq<State>, steps: seq<Step>, w: nat, n: nat)
    requires Execution(c, states, steps) && n < |steps| && w < |states[n].workers|
    requires Explained(states, steps, w, n) && steps[n] == Look(w)
    ensures w < |states[n + 1].workers| && Explained(states, steps, w, n + 1)
  {
    var s := states[n];
    assert states[n + 1] == Apply(c, s, steps[n]);
    var j := s.workers[w].job;
    var t: nat :| Drew(states, steps, w, t, n, j);
    if !j.isBreak {
      if s.threadExit {
        assert Turn(states, steps, w, t, n, None, n + 1, j.(isBreak := true));
      } else if j.isSkip {
        assert Turn(states, steps, w, t, n, None, n + 1, j);
      } else {
        assert Started(states, steps, w, t, n, n + 1, j);
      }
    }
  }

  lemma ReturnExplained(c: Config, states: seq<State>, steps: seq<Step>, w: nat, n: nat, code: int)
    requires Execution(c, states, steps) && n < |steps| && w < |states[n].workers|
    requires Explained(states, steps, w, n) && steps[n] == Return(w, code)
    ensures w < |states[n + 1].workers| && Explained(states, steps, w, n + 1)
  {
    assert states[n + 1] == Apply(c, states[n], steps[n]);
    var j := states[n].workers[w].job;
    var t: nat, l: nat :| Started(states, steps, w, t, l, n, j);
    assert Turn(states, steps, w, t, l, Some(n), n + 1, j.(returncode := code));
  }

  /** The worker's own step carries the explanation on. */
  lemma OwnStepExplained(c: Config, states: seq<State>, steps: seq<Step>, w: nat, n: nat)
    requires Execution(c, states, steps) && n < |steps| && w < |states[n].workers|
    requires Explained(states, steps, w, n) && StepOf(steps[n], w)
    ensures w < |states[n + 1].workers| && Explained(states, steps, w, n + 1)
  {
    assert states[n + 1] == Apply(c, states[n], steps[n]);
    match steps[n]
    case Take(_) => assert Drew(states, steps, w, n, n + 1, states[n].input[0]);
    case Look(_) => LookExplained(c, states, steps, w, n);
    case Return(_, code) => ReturnExplained(c, states, steps, w, n, code);
    case Put(_) =>
  }

  lemma {:induction false} AllExplained(c: Config, states: seq<State>, steps: seq<Step>, w: nat, n: nat)
    requires Execution(c, states, steps) && n <= |steps| && w < c.processors
    ensures |states[n].workers| == c.processors && Explained(states, steps, w, n)
  {
    if n == 0 {
    } else {
      AllExplained(c, states, steps, w, n - 1);
      assert states[n - 1 + 1] == Apply(c, states[n - 1], steps[n - 1]);
      if StepOf(steps[n - 1], w) {
        OwnStepExplained(c, states, steps, w, n - 1);
      } else {
        StillExplained(c, states, steps, w, n - 1);
      }
    }
  }

  // ----- What became of each job

  lemma {:induction false} HandedInAt(states: seq<State>, steps: seq<Step>, n: nat, k: nat) returns (u: nat)
    requires n <= |steps| < |states| && k < |HandedIn(states, steps, n)|
    ensures u < n && steps[u].Put? && steps[u].w < |states[u].workers|
    ensures states[u].workers[steps[u].w] == Done(HandedIn(states, steps, n)[k])
  {
    var before, last := HandedIn(states, steps, n - 1), HandedBy(states[n - 1], steps[n - 1]);
    assert HandedIn(states, steps, n) == before + last;
    if k < |before| {
      u := HandedInAt(states, steps, n - 1, k);
    } else {
      u := n - 1;
      assert (before + last)[k] == last[k - |before|];
    }
  }

  /** The history of every collected record: some worker drew it from the queue, looked at it
      once, ran it at most once, and put it. It is broken exactly when the exit flag was set as
      the worker looked, and was not run then; a job to be skipped was not run either; any
      other was run exactly once in that turn and carries the code that run returned. */
  lemma JobHistory(c: Config, states: seq<State>, steps: seq<Step>, n: nat, k: nat)
      returns (w: nat, t: nat, l: nat, r: Option<nat>, u: nat)
    requires c.Valid() && Execution(c, states, steps) && n <= |steps| && k < |states[n].collected|
    ensures u < n && steps[u] == Put(w) && Turn(states, steps, w, t, l, r, u, states[n].collected[k])
  {
    CollectedInOrder(c, states, steps, n);
    u := HandedInAt(states, steps, n, k);
    w := steps[u].w;
    InvAlways(c, states, steps, u);
    AllExplained(c, states, steps, w, u);
    t, l, r :| Turn(states, steps, w, t, l, r, u, states[n].collected[k]);
  }

  /** A worker that is done with a job and later on is not has put it in between. */
  lemma {:induction false} PutLater(c: Config, states: seq<State>, steps: seq<Step>, w: nat, i: nat, n: nat)
      returns (u: nat)
    requires Execution(c, states, steps) && i <= n <= |steps| && w < |states[i].workers|
    requires states[i].workers[w].Done? && (w < |states[n].workers| ==> !states[n].workers[w].Done?)
    ensures i <= u < n && steps[u] == Put(w) && w < |states[u].workers| && states[u].workers[w] == states[i].workers[w]
    decreases n - i
  {
    assert i < |steps| ==> states[i + 1] == Apply(c, states[i], steps[i]);
    if StepOf(steps[i], w) {
      u := i;
    } else {
      u := PutLater(c, states, steps, w, i + 1, n);
    }
  }

  lemma {:induction false} PutIsHandedIn(states: seq<State>, steps: seq<Step>, u: nat, n: nat)
    requires u < n <= |steps| < |states| && steps[u].Put?
    requires steps[u].w < |states[u].workers| && states[u].workers[steps[u].w].Done?
    ensures states[u].workers[steps[u].w].job in HandedIn(states, steps, n)
    decreases n
  {
    var before, last := HandedIn(states, steps, n - 1), HandedBy(states[n - 1], steps[n - 1]);
    assert HandedIn(states, steps, n) == before + last;
    if u == n - 1 {
      assert last[0] in before + last;
    } else {
      PutIsHandedIn(states, steps, u, n - 1);
    }
  }

  /** In a finished run, what a worker had when it was done with a job is among the results. */
  lemma DoneIsCollected(c: Config, states: seq<State>, steps: seq<Step>, w: nat, i: nat)
    requires c.Valid() && Execution(c, states, steps) && states[|steps|].exitCode.Some?
    requires i <= |steps| && w < |states[i].workers| && states[i].workers[w].Done?
    ensures states[i].workers[w].job in states[|steps|].collected
  {
    var n := |steps|;
    FinishedRun(c, states, steps, n);
    var u := PutLater(c, states, steps, w, i, n);
    PutIsHandedIn(states, steps, u, n);
    CollectedInOrder(c, states, steps, n);
  }

  lemma ReturnIsCollected(c: Config, states: seq<State>, steps: seq<Step>, i: nat)
    requires c.Valid() && Execution(c, states, steps) && states[|steps|].exitCode.Some?
    requires i < |steps| && steps[i].Return?
    ensures exists j :: j in states[|steps|].collected && !j.isBreak && !j.isSkip && j.returncode == steps[i].code
  {
    var w := steps[i].w;
    InvAlways(c, states, steps, i);
    AllExplained(c, states, steps, w, i);
    var before := states[i].workers[w].job;
    var t: nat, l: nat :| Started(states, steps, w, t, l, i, before);
    assert states[i + 1] == Apply(c, states[i], steps[i]);
    DoneIsCollected(c, states, steps, w, i + 1);
    assert states[i + 1].workers[w].job in states[|steps|].collected;
  }

  lemma BreakIsCollected(c: Config, states: seq<State>, steps: seq<Step>, i: nat)
    requires c.Valid() && Execution(c, states, steps) && states[|steps|].exitCode.Some?
    requires i < |steps| && steps[i].Look? && states[i].threadExit
    requires !states[i].workers[steps[i].w].job.isBreak
    ensures exists j :: j in states[|steps|].collected && j.isBreak
  {
    assert states[i + 1] == Apply(c, states[i], steps[i]);
    DoneIsCollected(c, states, steps, steps[i].w, i + 1);
  }

  lemma {:induction false} KeepsWorker(c: Config, states: seq<State>, steps: seq<Step>, w: nat, a: nat, b: nat)
    requires Execution(c, states, steps) && a <= b <= |steps| && Quiet(steps, w, a, b) && w < |states[a].workers|
    ensures w < |states[b].workers| && states[b].workers[w] == states[a].workers[w]
    decreases b
  {
    if a == b {
    } else {
      KeepsWorker(c, states, steps, w, a, b - 1);
      assert states[b - 1 + 1] == Apply(c, states[b - 1], steps[b - 1]);
    }
  }

  /** At the look of a turn the worker has the job it drew. */
  lemma LookedAtDrawn(c: Config, states: seq<State>, steps: seq<Step>, w: nat, t: nat, l: nat, r: Option<nat>, u: nat,
                      job: Job)
    requires c.Valid() && Execution(c, states, steps) && u <= |steps| && Turn(states, steps, w, t, l, r, u, job)
    ensures w < |states[l].workers| && states[l].workers[w] == Got(states[t].input[0])
  {
    assert states[t + 1] == Apply(c, states[t], steps[t]);
    KeepsWorker(c, states, steps, w, t + 1, l);
  }

  /** The exit code of a finished run, in terms of what happened in it: 0 exactly when every
      run returned 0 and no job met the exit flag. */
  lemma {:induction false} ExitCodeMeans(c: Config, states: seq<State>, steps: seq<Step>)
    requires c.Valid() && Execution(c, states, steps) && states[|steps|].exitCode.Some?
    ensures states[|steps|].exitCode.value == 0 <==>
              && (forall i :: 0 <= i < |steps| && steps[i].Return? ==> steps[i].code == 0)
              && (forall i :: 0 <= i < |steps| && steps[i].Look? && states[i].threadExit ==>
                    states[i].workers[steps[i].w].job.isBreak)
  {
    var n := |steps|;
    var results := states[n].collected;
    FinishedRun(c, states, steps, n);
    if states[n].exitCode.value == 0 {
      forall i | 0 <= i < n && steps[i].Return? ensures steps[i].code == 0 {
        ReturnIsCollected(c, states, steps, i);
      }
      forall i | 0 <= i < n && steps[i].Look? && states[i].threadExit
        ensures states[i].workers[steps[i].w].job.isBreak
      {
        if !states[i].workers[steps[i].w].job.isBreak {
          BreakIsCollected(c, states, steps, i);
        }
      }
    }
    if && (forall i :: 0 <= i < n && steps[i].Return? ==> steps[i].code == 0)
       && (forall i :: 0 <= i < n && steps[i].Look? && states[i].threadExit ==>
             states[i].workers[steps[i].w].job.isBreak) {
      forall k | 0 <= k < |results| ensures Good(results[k]) {
        var w, t, l, r, u := JobHistory(c, states, steps, n, k);
        LookedAtDrawn(c, states, steps, w, t, l, r, u, results[k]);
      }
    }
  }

  // ----- The summary

  /** How a result is counted. */
  datatype Verdict = Skip | Code(code: int) | Crash

  /** An interrupted result is not counted; a skipped one is counted as such whatever its code. */
  predicate Falls(j: Job, v: Verdict) {
    match v
    case Skip => !j.isBreak && j.isSkip
    case Code(code) => !j.isBreak && !j.isSkip && j.returncode == code
    case Crash => !j.isBreak && !j.isSkip && j.returncode !in {0, 1, 2}
  }

  /** The positions of the results with this verdict. */
  ghost function Where(jobs: seq<Job>, v: Verdict): set<nat> {
    set i: nat | i < |jobs| && Falls(jobs[i], v)
  }

  lemma OneMoreWhere(jobs: seq<Job>, v: Verdict)
    requires jobs != []
    ensures var init, last := jobs[..|jobs| - 1], jobs[|jobs| - 1];
            |Where(jobs, v)| == |Where(init, v)| + if Falls(last, v) then 1 else 0
  {
    var init, last := jobs[..|jobs| - 1], jobs[|jobs| - 1];
    var more: set<nat> := if Falls(last, v) then {|init|} else {};
    assert Where(jobs, v) == Where(init, v) + more && Where(init, v) !! more;
  }

  /** The counters of the summary: code 0 passed, 1 failed, 2 had memory errors, and any other
      code crashed. */
  lemma {:induction false} TallyExact(jobs: seq<Job>)
    ensures var t := TallyOf(jobs);
            && t.skipped == |Where(jobs, Skip)| && t.passed == |Where(jobs, Code(0))|
            && t.failed == |Where(jobs, Code(1))| && t.valgrind == |Where(jobs, Code(2))|
            && t.crashed == |Where(jobs, Crash)|
  {
    if jobs == [] {
    } else {
      TallyExact(jobs[..|jobs| - 1]);
      OneMoreWhere(jobs, Skip);
      OneMoreWhere(jobs, Code(0));
      OneMoreWhere(jobs, Code(1));
      OneMoreWhere(jobs, Code(2));
      OneMoreWhere(jobs, Crash);
    }
  }
}
