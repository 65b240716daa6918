/** The test runner's worker pool as a state machine: worker threads share an input queue
    that ends in one sentinel per worker, and an output queue; the main thread dispatches,
    collects and joins; an interrupt may set the exit flag at any moment. Every step of
    every thread is one transition, so a run is any interleaving. */
module WorkerPool {
  import opened Common

  /** A job record. A sentinel is a record with `isBreak` set before it is queued. */
  datatype Job = Job(id: nat, isBreak: bool, isSkip: bool, returncode: int)

  /** Where a worker thread is in its loop. */
  datatype Worker =
    | Idle             // waiting for the input queue
    | Got(job: Job)    // took a job, has not looked at it
    | Busy(job: Job)   // running it
    | Done(job: Job)   // about to put it on the output queue
    | Exited

  datatype Tally = Tally(passed: nat, skipped: nat, failed: nat, valgrind: nat, crashed: nat)

  /** The jobs to dispatch, none of them a sentinel, and the number of threads. */
  datatype Config = Config(jobs: seq<Job>, processors: nat) {
    ghost predicate Valid() { forall i :: 0 <= i < |jobs| ==> !jobs[i].isBreak }
  }

  datatype State = State(
    toDispatch: seq<Job>, sentinelsToSend: nat,
    input: seq<Job>, workers: seq<Worker>, output: seq<Job>,
    collected: seq<Job>, tally: Tally, joined: nat,
    threadExit: bool, exitCode: Option<int>)

  datatype Step =
    | Dispatch | SendSentinel | Collect | Join | Finish
    | Interrupt
    | Take(w: nat) | Look(w: nat) | Return(w: nat, code: int) | Put(w: nat)

  const SENTINEL := Job(0, true, false, 0)

  function Initial(c: Config): State {
    State(c.jobs, c.processors, [], seq(c.processors, _ => Idle), [], [], Tally(0, 0, 0, 0, 0), 0, false, None)
  }

  predicate Enabled(c: Config, s: State, step: Step) {
    match step
    case Dispatch => s.toDispatch != []
    case SendSentinel => s.toDispatch == [] && s.sentinelsToSend > 0
    case Collect => s.toDispatch == [] && s.sentinelsToSend == 0 && |s.collected| < |c.jobs| && s.output != []
    case Join => s.toDispatch == [] && s.sentinelsToSend == 0 && |s.collected| == |c.jobs|
                 && s.joined < |s.workers| && s.workers[s.joined].Exited?
    case Finish => s.toDispatch == [] && s.sentinelsToSend == 0 && |s.collected| == |c.jobs|
                   && s.joined == |s.workers| && s.exitCode.None?
    case Interrupt => !s.threadExit
    case Take(w) => w < |s.workers| && s.workers[w].Idle? && s.input != []
    case Look(w) => w < |s.workers| && s.workers[w].Got?
    case Return(w, code) => w < |s.workers| && s.workers[w].Busy?
    case Put(w) => w < |s.workers| && s.workers[w].Done?
  }

  /** How a collected job is counted; an interrupted one is not counted at all. */
  function Count(t: Tally, j: Job): Tally {
    if j.isBreak then t
    else if j.isSkip then t.(skipped := t.skipped + 1)
    else if j.returncode == 0 then t.(passed := t.passed + 1)
    else if j.returncode == 1 then t.(failed := t.failed + 1)
    else if j.returncode == 2 then t.(valgrind := t.valgrind + 1)
    else t.(crashed := t.crashed + 1)
  }

  /** What a worker does with the job it took: a sentinel ends it, the exit flag turns a
      real job into a break, a job to be skipped goes straight to the output. */
  function Looked(j: Job, threadExit: bool): Worker {
    if j.isBreak then Exited
    else if threadExit then Done(j.(isBreak := true))
    else if j.isSkip then Done(j)
    else Busy(j)
  }

  function Apply(c: Config, s: State, step: Step): State
    requires Enabled(c, s, step)
  {
    match step
    case Dispatch => s.(toDispatch := s.toDispatch[1..], input := s.input + [s.toDispatch[0]])
    case SendSentinel => s.(sentinelsToSend := s.sentinelsToSend - 1, input := s.input + [SENTINEL])
    case Collect =>
      s.(output := s.output[1..], collected := s.collected + [s.output[0]], tally := Count(s.tally, s.output[0]))
    case Join => s.(joined := s.joined + 1)
    case Finish => s.(exitCode := Some(if s.tally.passed + s.tally.skipped == |c.jobs| then 0 else 1))
    case Interrupt => s.(threadExit := true)
    case Take(w) => s.(workers := s.workers[w := Got(s.input[0])], input := s.input[1..])
    case Look(w) => s.(workers := s.workers[w := Looked(s.workers[w].job, s.threadExit)])
    case Return(w, code) => s.(workers := s.workers[w := Done(s.workers[w].job.(returncode := code))])
    case Put(w) => s.(workers := s.workers[w := Idle], output := s.output + [s.workers[w].job])
  }

  /** An execution: the states passed through, from the initial one, and the steps between them. */
  ghost predicate Execution(c: Config, states: seq<State>, steps: seq<Step>) {
    && |states| == |steps| + 1 && states[0] == Initial(c)
    && forall i {:trigger steps[i]} :: 0 <= i < |steps| ==>
         Enabled(c, states[i], steps[i]) && states[i + 1] == Apply(c, states[i], steps[i])
  }

  // ----- Accounting

  /** What is counted: one job, told apart by its number and whether it is to be skipped,
      or, for `None`, every job. */
  type Key = Option<(nat, bool)>

  function Is(j: Job, k: Key): nat { if k.None? || k.value == (j.id, j.isSkip) then 1 else 0 }

  /** How many of the jobs `k` counts. */
  ghost function Occurs(jobs: seq<Job>, k: Key): nat {
    if jobs == [] then 0 else Is(jobs[0], k) + Occurs(jobs[1..], k)
  }

  /** The same, sentinels left out. */
  ghost function OccursReal(jobs: seq<Job>, k: Key): nat {
    if jobs == [] then 0 else (if jobs[0].isBreak then 0 else Is(jobs[0], k)) + OccursReal(jobs[1..], k)
  }

  ghost function Sentinels(jobs: seq<Job>): nat {
    if jobs == [] then 0 else (if jobs[0].isBreak then 1 else 0) + Sentinels(jobs[1..])
  }

  /** Does the worker hold the real job `k`? */
  ghost function HeldBy(w: Worker, k: Key): nat {
    match w
    case Idle => 0
    case Got(j) => if j.isBreak then 0 else Is(j, k)
    case Busy(j) => Is(j, k)
    case Done(j) => Is(j, k)
    case Exited => 0
  }

  ghost function Held(workers: seq<Worker>, k: Key): nat {
    if workers == [] then 0 else HeldBy(workers[0], k) + Held(workers[1..], k)
  }

  /** The worker has drawn its sentinel. */
  predicate Stopping(w: Worker) { w.Exited? || (w.Got? && w.job.isBreak) }

  ghost function StoppingCount(workers: seq<Worker>): nat {
    if workers == [] then 0 else (if Stopping(workers[0]) then 1 else 0) + StoppingCount(workers[1..])
  }

  lemma {:induction false} OccursAppend(a: seq<Job>, j: Job, k: Key)
    ensures Occurs(a + [j], k) == Occurs(a, k) + Is(j, k)
    ensures OccursReal(a + [j], k) == OccursReal(a, k) + if j.isBreak then 0 else Is(j, k)
  {
    if a != [] {
      assert (a + [j])[1..] == a[1..] + [j];
      OccursAppend(a[1..], j, k);
    } else {
      assert (a + [j])[1..] == [];
    }
  }

  lemma {:induction false} SentinelsAppend(a: seq<Job>, j: Job)
    ensures Sentinels(a + [j]) == Sentinels(a) + if j.isBreak then 1 else 0
  {
    if a != [] {
      assert (a + [j])[1..] == a[1..] + [j];
      SentinelsAppend(a[1..], j);
    } else {
      assert (a + [j])[1..] == [];
    }
  }

  /** What one worker's change does to the sums over all workers. */
  lemma {:induction false} HeldChanges(workers: seq<Worker>, w: nat, now: Worker, k: Key)
    requires w < |workers|
    ensures Held(workers[w := now], k) + HeldBy(workers[w], k) == Held(workers, k) + HeldBy(now, k)
  {
    var after := workers[w := now];
    if w == 0 {
      assert after[1..] == workers[1..];
    } else {
      assert after[1..] == workers[1..][w - 1 := now];
      HeldChanges(workers[1..], w - 1, now, k);
    }
  }

  lemma {:induction false} StoppingChanges(workers: seq<Worker>, w: nat, now: Worker)
    requires w < |workers|
    ensures StoppingCount(workers[w := now]) + (if Stopping(workers[w]) then 1 else 0)
         == StoppingCount(workers) + (if Stopping(now) then 1 else 0)
  {
    var after := workers[w := now];
    if w == 0 {
      assert after[1..] == workers[1..];
    } else {
      assert after[1..] == workers[1..][w - 1 := now];
      StoppingChanges(workers[1..], w - 1, now);
    }
  }

  /** Real jobs come before sentinels. */
  ghost predicate RealFirst(input: seq<Job>) {
    forall i, j :: 0 <= i < j < |input| && input[i].isBreak ==> input[j].isBreak
  }

  /** The tally counts exactly the collected jobs. */
  ghost function TallyOf(jobs: seq<Job>): Tally {
    if jobs == [] then Tally(0, 0, 0, 0, 0) else Count(TallyOf(jobs[..|jobs| - 1]), jobs[|jobs| - 1])
  }

  // ----- The invariant

  /** How many of the jobs `k` counts are somewhere: still to dispatch, queued, in a worker's
      hands, on the output queue, or collected. */
  ghost function Copies(s: State, k: Key): nat {
    Occurs(s.toDispatch, k) + OccursReal(s.input, k) + Held(s.workers, k) + Occurs(s.output, k)
      + Occurs(s.collected, k)
  }

  /** Every job is in exactly one of these places. */
  ghost predicate Conserved(c: Config, s: State) {
    forall k {:trigger Occurs(c.jobs, k)} :: Copies(s, k) == Occurs(c.jobs, k)
  }

  ghost predicate NoneReal(input: seq<Job>) {
    forall i :: 0 <= i < |input| ==> input[i].isBreak
  }

  /** Sentinels follow the last job, there is one per worker, and once one has been drawn
      no real job is left in the queue. */
  ghost predicate Phases(c: Config, s: State) {
    && (forall i :: 0 <= i < |s.toDispatch| ==> !s.toDispatch[i].isBreak)
    && (s.sentinelsToSend < c.processors ==> s.toDispatch == [])
    && (s.sentinelsToSend == c.processors ==> forall i :: 0 <= i < |s.input| ==> !s.input[i].isBreak)
    && |s.workers| == c.processors
    && s.sentinelsToSend + Sentinels(s.input) + StoppingCount(s.workers) == c.processors
    && RealFirst(s.input)
    && (forall w :: 0 <= w < |s.workers| && Stopping(s.workers[w]) ==>
        NoneReal(s.input) && s.sentinelsToSend < c.processors)
  }

  /** A job is marked broken only after an interrupt. */
  ghost predicate BreaksExplained(s: State) {
    s.threadExit
    || ((forall i :: 0 <= i < |s.output| ==> !s.output[i].isBreak)
        && (forall i :: 0 <= i < |s.collected| ==> !s.collected[i].isBreak)
        && (forall w :: 0 <= w < |s.workers| && (s.workers[w].Busy? || s.workers[w].Done?) ==>
            !s.workers[w].job.isBreak))
  }

  ghost predicate MainThread(c: Config, s: State) {
    && |s.collected| <= |c.jobs| && s.joined <= |s.workers|
    && (s.joined > 0 || s.exitCode.Some? ==> |s.collected| == |c.jobs| && s.toDispatch == [] && s.sentinelsToSend == 0)
    && (forall w :: 0 <= w < s.joined ==> s.workers[w].Exited?)
    && (s.exitCode.Some? ==> s.joined == |s.workers|)
    && s.tally == TallyOf(s.collected)
    && (s.exitCode.Some? ==> s.exitCode.value == if s.tally.passed + s.tally.skipped == |c.jobs| then 0 else 1)
  }

  ghost predicate Inv(c: Config, s: State) {
    Conserved(c, s) && Phases(c, s) && BreaksExplained(s) && MainThread(c, s)
  }

  // ----- Preservation

  lemma {:induction false} MainCopies(c: Config, s: State, step: Step, k: Key)
    requires c.Valid() && Phases(c, s) && Enabled(c, s, step)
    requires !step.Take? && !step.Look? && !step.Return? && !step.Put?
    ensures Copies(Apply(c, s, step), k) == Copies(s, k)
  {
    match step
    case Dispatch => OccursAppend(s.input, s.toDispatch[0], k);
    case SendSentinel => OccursAppend(s.input, SENTINEL, k);
    case Collect => OccursAppend(s.collected, s.output[0], k);
    case _ =>
  }

  lemma {:induction false} TakeCopies(c: Config, s: State, w: nat, k: Key)
    requires c.Valid() && Phases(c, s) && Enabled(c, s, Take(w))
    ensures Copies(Apply(c, s, Take(w)), k) == Copies(s, k)
  {
    HeldChanges(s.workers, w, Got(s.input[0]), k);
  }

  lemma {:induction false} PutCopies(c: Config, s: State, w: nat, k: Key)
    requires c.Valid() && Phases(c, s) && Enabled(c, s, Put(w))
    ensures Copies(Apply(c, s, Put(w)), k) == Copies(s, k)
  {
    HeldChanges(s.workers, w, Idle, k);
    OccursAppend(s.output, s.workers[w].job, k);
  }

  lemma {:induction false} WorkCopies(c: Config, s: State, step: Step, k: Key)
    requires c.Valid() && Phases(c, s) && Enabled(c, s, step) && (step.Look? || step.Return?)
    ensures Copies(Apply(c, s, step), k) == Copies(s, k)
  {
    HeldChanges(s.workers, step.w, Apply(c, s, step).workers[step.w], k);
  }

  lemma {:induction false} ConservedStep(c: Config, s: State, step: Step)
    requires c.Valid() && Conserved(c, s) && Phases(c, s) && Enabled(c, s, step)
    ensures Conserved(c, Apply(c, s, step))
  {
    var t := Apply(c, s, step);
    forall k {:trigger Occurs(c.jobs, k)} ensures Copies(t, k) == Occurs(c.jobs, k) {
      match step
      case Take(w) => TakeCopies(c, s, w, k);
      case Look(w) => WorkCopies(c, s, step, k);
      case Return(w, code) => WorkCopies(c, s, step, k);
      case Put(w) => PutCopies(c, s, w, k);
      case _ => MainCopies(c, s, step, k);
    }
  }

  lemma {:induction false} TakePhases(c: Config, s: State, w: nat)
    requires c.Valid() && Phases(c, s) && Enabled(c, s, Take(w))
    ensures Phases(c, Apply(c, s, Take(w)))
  {
    var t := Apply(c, s, Take(w));
    StoppingChanges(s.workers, w, t.workers[w]);
    if Stopping(t.workers[w]) {
      assert forall i :: 0 <= i < |t.input| ==> t.input[i] == s.input[i + 1];
    }
  }

  lemma {:induction false} DispatchPhases(c: Config, s: State)
    requires c.Valid() && Phases(c, s) && Enabled(c, s, Dispatch)
    ensures Phases(c, Apply(c, s, Dispatch))
  {
    SentinelsAppend(s.input, s.toDispatch[0]);
  }

  lemma {:induction false} SentinelPhases(c: Config, s: State)
    requires c.Valid() && Phases(c, s) && Enabled(c, s, SendSentinel)
    ensures Phases(c, Apply(c, s, SendSentinel))
  {
    SentinelsAppend(s.input, SENTINEL);
  }

  /** What a worker does with its job leaves the input queue alone. */
  lemma {:induction false} WorkPhases(c: Config, s: State, step: Step)
    requires c.Valid() && Phases(c, s) && Enabled(c, s, step) && (step.Look? || step.Return? || step.Put?)
    ensures Phases(c, Apply(c, s, step))
  {
    var t := Apply(c, s, step);
    StoppingChanges(s.workers, step.w, t.workers[step.w]);
    assert Stopping(t.workers[step.w]) <==> Stopping(s.workers[step.w]);
  }

  lemma {:induction false} PhasesStep(c: Config, s: State, step: Step)
    requires c.Valid() && Phases(c, s) && Enabled(c, s, step)
    ensures Phases(c, Apply(c, s, step))
  {
    match step
    case Dispatch => DispatchPhases(c, s);
    case SendSentinel => SentinelPhases(c, s);
    case Take(w) => TakePhases(c, s, w);
    case Look(w) => WorkPhases(c, s, step);
    case Return(w, code) => WorkPhases(c, s, step);
    case Put(w) => WorkPhases(c, s, step);
    case _ =>
  }

  lemma {:induction false} BreaksStep(c: Config, s: State, step: Step)
    requires BreaksExplained(s) && Enabled(c, s, step)
    ensures BreaksExplained(Apply(c, s, step))
  {
  }

  lemma {:induction false} MainStep(c: Config, s: State, step: Step)
    requires MainThread(c, s) && Phases(c, s) && Enabled(c, s, step)
    ensures MainThread(c, Apply(c, s, step))
  {
    var t := Apply(c, s, step);
    if step.Collect? {
      assert t.collected[..|t.collected| - 1] == s.collected;
    }
  }

  lemma {:induction false} NoneHeld(n: nat)
    ensures var idle := seq(n, _ => Idle); StoppingCount(idle) == 0 && forall k :: Held(idle, k) == 0
  {
    var idle: seq<Worker> := seq(n, _ => Idle);
    if n == 0 {
    } else {
      var fewer: seq<Worker> := seq(n - 1, _ => Idle);
      assert idle[1..] == fewer;
      NoneHeld(n - 1);
    }
  }

  lemma InitialInv(c: Config)
    requires c.Valid()
    ensures Inv(c, Initial(c))
  {
    NoneHeld(c.processors);
  }

  /** Safety of every interleaving. */
  lemma {:induction false} InvAlways(c: Config, states: seq<State>, steps: seq<Step>, i: nat)
    requires c.Valid() && Execution(c, states, steps) && i < |states|
    ensures Inv(c, states[i])
  {
    if i == 0 {
      InitialInv(c);
    } else {
      InvAlways(c, states, steps, i - 1);
      assert states[i - 1 + 1] == Apply(c, states[i - 1], steps[i - 1]);
      ConservedStep(c, states[i - 1], steps[i - 1]);
      PhasesStep(c, states[i - 1], steps[i - 1]);
      BreaksStep(c, states[i - 1], steps[i - 1]);
      MainStep(c, states[i - 1], steps[i - 1]);
    }
  }

  // ----- What follows

  lemma {:induction false} CountsAtMostAll(a: seq<Job>, k: Key)
    ensures Occurs(a, k) <= Occurs(a, None) == |a| && OccursReal(a, k) <= OccursReal(a, None)
    ensures NoneReal(a) ==> OccursReal(a, None) == 0
  {
    if a == [] {
    } else {
      CountsAtMostAll(a[1..], k);
    }
  }

  lemma {:induction false} HeldAtMostAll(workers: seq<Worker>, k: Key)
    ensures Held(workers, k) <= Held(workers, None)
    ensures (forall w :: 0 <= w < |workers| ==> workers[w].Idle? || workers[w].Exited?) ==> Held(workers, None) == 0
  {
    if workers == [] {
    } else {
      HeldAtMostAll(workers[1..], k);
      assert forall w :: 0 < w < |workers| ==> workers[w] == workers[1..][w - 1];
    }
  }

  lemma {:induction false} AllStopping(workers: seq<Worker>)
    ensures StoppingCount(workers) <= |workers|
    ensures StoppingCount(workers) == |workers| ==> forall w :: 0 <= w < |workers| ==> Stopping(workers[w])
  {
    if workers == [] {
    } else {
      AllStopping(workers[1..]);
      assert forall w :: 0 < w < |workers| ==> workers[w] == workers[1..][w - 1];
    }
  }

  /** No worker stops while a job is waiting or still to be dispatched. */
  lemma {:induction false} NoJobLeftBehind(c: Config, states: seq<State>, steps: seq<Step>, i: nat, w: nat)
    requires c.Valid() && Execution(c, states, steps) && i < |states| && w < |states[i].workers|
        && states[i].workers[w].Exited?
    ensures NoneReal(states[i].input) && states[i].toDispatch == []
  {
    InvAlways(c, states, steps, i);
    assert Stopping(states[i].workers[w]);
  }

  /** The collected jobs are exactly the dispatched ones, each as often as it was
      dispatched, as soon as as many have been collected. */
  lemma {:induction false} CollectedAreAll(c: Config, s: State, k: Key)
    requires Inv(c, s) && |s.collected| == |c.jobs|
    ensures Occurs(s.collected, k) == Occurs(c.jobs, k) && s.output == []
  {
    assert Copies(s, None) == Occurs(c.jobs, None);
    CountsAtMostAll(c.jobs, k);
    CountsAtMostAll(s.toDispatch, k);
    CountsAtMostAll(s.input, k);
    CountsAtMostAll(s.output, k);
    CountsAtMostAll(s.collected, k);
    HeldAtMostAll(s.workers, k);
  }

  ghost predicate CanMove(c: Config, s: State) {
    exists step: Step :: step != Interrupt && Enabled(c, s, step)
  }

  /** With all queues drained and no worker busy, every job has been collected. */
  lemma {:induction false} NothingMissing(c: Config, s: State)
    requires Inv(c, s) && s.toDispatch == [] && s.output == [] && (c.processors > 0 || c.jobs == [])
    requires forall w :: 0 <= w < |s.workers| ==> s.workers[w].Idle? || s.workers[w].Exited?
    requires s.input == [] || forall w :: 0 <= w < |s.workers| ==> s.workers[w].Exited?
    ensures |s.collected| == |c.jobs|
  {
    assert Copies(s, None) == Occurs(c.jobs, None);
    CountsAtMostAll(c.jobs, None);
    CountsAtMostAll(s.collected, None);
    HeldAtMostAll(s.workers, None);
    if c.processors > 0 && s.input != [] {
      assert Stopping(s.workers[0]);
      CountsAtMostAll(s.input, None);
    }
  }

  lemma {:induction false} WorkersDone(c: Config, s: State)
    requires Inv(c, s) && s.toDispatch == [] && s.sentinelsToSend == 0
    requires forall w :: 0 <= w < |s.workers| ==> s.workers[w].Exited? || (s.workers[w].Idle? && s.input == [])
    ensures forall w :: 0 <= w < |s.workers| ==> s.workers[w].Exited?
  {
    if s.input == [] {
      AllStopping(s.workers);
    }
  }

  /** With at least one worker, or nothing to do, no reachable unfinished state is stuck. */
  lemma {:induction false} NeverStuck(c: Config, s: State)
    requires Inv(c, s) && s.exitCode.None? && (c.processors > 0 || c.jobs == [])
    ensures CanMove(c, s)
  {
    if s.toDispatch != [] {
      assert Enabled(c, s, Dispatch);
    } else if s.sentinelsToSend > 0 {
      assert Enabled(c, s, SendSentinel);
    } else if w :| 0 <= w < |s.workers| && !s.workers[w].Idle? && !s.workers[w].Exited? {
      assert Enabled(c, s, Look(w)) || Enabled(c, s, Return(w, 0)) || Enabled(c, s, Put(w));
    } else if w :| 0 <= w < |s.workers| && s.workers[w].Idle? && s.input != [] {
      assert Enabled(c, s, Take(w));
    } else if s.output != [] && |s.collected| < |c.jobs| {
      assert Enabled(c, s, Collect);
    } else if |s.collected| < |c.jobs| {
      assert s.input == [] || forall w :: 0 <= w < |s.workers| ==> s.workers[w].Exited?;
      NothingMissing(c, s);
      assert false;
    } else {
      WorkersDone(c, s);
      assert Enabled(c, s, Join) || Enabled(c, s, Finish);
    }
  }

  /** Without any worker nothing is ever put on the output queue. */
  lemma {:induction false} NoWorkersNoOutput(c: Config, states: seq<State>, steps: seq<Step>, i: nat)
    requires c.Valid() && Execution(c, states, steps) && i < |states| && c.processors == 0
    ensures states[i].output == [] && states[i].collected == []
  {
    if i == 0 {
    } else {
      NoWorkersNoOutput(c, states, steps, i - 1);
      InvAlways(c, states, steps, i - 1);
      assert states[i - 1 + 1] == Apply(c, states[i - 1], steps[i - 1]);
    }
  }

  /** And the main thread waits for results for ever once all jobs are dispatched: the
      condition on the number of workers is exact. */
  lemma {:induction false} StuckWithoutWorkers(c: Config, states: seq<State>, steps: seq<Step>, i: nat)
    requires c.Valid() && Execution(c, states, steps) && i < |states|
    requires c.processors == 0 && c.jobs != [] && states[i].toDispatch == []
    ensures states[i].exitCode.None? && !CanMove(c, states[i])
  {
    InvAlways(c, states, steps, i);
    NoWorkersNoOutput(c, states, steps, i);
  }

  // ----- Termination

  ghost function QueueWork(input: seq<Job>): nat {
    if input == [] then 0 else (if input[0].isBreak then 3 else 6) + QueueWork(input[1..])
  }

  ghost function WorkerWork(w: Worker): nat {
    match w
    case Idle => 0
    case Got(j) => if j.isBreak then 2 else 5
    case Busy(j) => 4
    case Done(j) => 3
    case Exited => 0
  }

  ghost function WorkersWork(workers: seq<Worker>): nat {
    if workers == [] then 0 else WorkerWork(workers[0]) + WorkersWork(workers[1..])
  }

  /** How many steps can still be taken at most. */
  ghost function Left(s: State): int {
    7 * |s.toDispatch| + 4 * s.sentinelsToSend + QueueWork(s.input) + WorkersWork(s.workers) + 2 * |s.output|
      + (|s.workers| - s.joined) + (if s.exitCode.None? then 1 else 0) + (if s.threadExit then 0 else 1)
  }

  lemma {:induction false} QueueWorkAppend(a: seq<Job>, j: Job)
    ensures QueueWork(a + [j]) == QueueWork(a) + if j.isBreak then 3 else 6
  {
    if a != [] {
      assert (a + [j])[1..] == a[1..] + [j];
      QueueWorkAppend(a[1..], j);
    } else {
      assert (a + [j])[1..] == [];
    }
  }

  lemma {:induction false} WorkChanges(workers: seq<Worker>, w: nat, now: Worker)
    requires w < |workers|
    ensures WorkersWork(workers[w := now]) + WorkerWork(workers[w]) == WorkersWork(workers) + WorkerWork(now)
  {
    var after := workers[w := now];
    if w == 0 {
      assert after[1..] == workers[1..];
    } else {
      assert after[1..] == workers[1..][w - 1 := now];
      WorkChanges(workers[1..], w - 1, now);
    }
  }

  lemma {:induction false} DispatchUsesWork(c: Config, s: State)
    requires Enabled(c, s, Dispatch)
    ensures Left(Apply(c, s, Dispatch)) < Left(s)
  {
    QueueWorkAppend(s.input, s.toDispatch[0]);
  }

  lemma {:induction false} SentinelUsesWork(c: Config, s: State)
    requires Enabled(c, s, SendSentinel)
    ensures Left(Apply(c, s, SendSentinel)) < Left(s)
  {
    QueueWorkAppend(s.input, SENTINEL);
  }

  lemma {:induction false} TakeUsesWork(c: Config, s: State, w: nat)
    requires Enabled(c, s, Take(w))
    ensures Left(Apply(c, s, Take(w))) < Left(s)
  {
    WorkChanges(s.workers, w, Got(s.input[0]));
  }

  lemma {:induction false} LookUsesWork(c: Config, s: State, w: nat)
    requires Enabled(c, s, Look(w))
    ensures Left(Apply(c, s, Look(w))) < Left(s)
  {
    WorkChanges(s.workers, w, Looked(s.workers[w].job, s.threadExit));
  }

  lemma {:induction false} ReturnUsesWork(c: Config, s: State, w: nat, code: int)
    requires Enabled(c, s, Return(w, code))
    ensures Left(Apply(c, s, Return(w, code))) < Left(s)
  {
    WorkChanges(s.workers, w, Done(s.workers[w].job.(returncode := code)));
  }

  lemma {:induction false} PutUsesWork(c: Config, s: State, w: nat)
    requires Enabled(c, s, Put(w))
    ensures Left(Apply(c, s, Put(w))) < Left(s)
  {
    WorkChanges(s.workers, w, Idle);
  }

  lemma {:induction false} StepsUseWork(c: Config, s: State, step: Step)
    requires c.Valid() && Inv(c, s) && Enabled(c, s, step)
    ensures Left(Apply(c, s, step)) < Left(s) && Left(Apply(c, s, step)) >= 0
  {
    match step
    case Dispatch => DispatchUsesWork(c, s);
    case SendSentinel => SentinelUsesWork(c, s);
    case Collect =>
    case Join =>
    case Finish =>
    case Interrupt =>
    case Take(w) => TakeUsesWork(c, s, w);
    case Look(w) => LookUsesWork(c, s, w);
    case Return(w, code) => ReturnUsesWork(c, s, w, code);
    case Put(w) => PutUsesWork(c, s, w);
  }

  lemma {:induction false} NoWorkYet(n: nat)
    ensures WorkersWork(seq(n, _ => Idle)) == 0
  {
    if n == 0 {
    } else {
      var idle: seq<Worker>, fewer: seq<Worker> := seq(n, _ => Idle), seq(n - 1, _ => Idle);
      assert idle[1..] == fewer;
      NoWorkYet(n - 1);
    }
  }

  lemma {:induction false} WorkLeft(c: Config, states: seq<State>, steps: seq<Step>, i: nat)
    requires c.Valid() && Execution(c, states, steps) && i < |states|
    ensures 0 <= Left(states[i]) <= 7 * |c.jobs| + 5 * c.processors + 2 - i
  {
    if i == 0 {
      NoWorkYet(c.processors);
    } else {
      WorkLeft(c, states, steps, i - 1);
      InvAlways(c, states, steps, i - 1);
      assert states[i - 1 + 1] == Apply(c, states[i - 1], steps[i - 1]);
      StepsUseWork(c, states[i - 1], steps[i - 1]);
    }
  }

  /** Every execution is finite: the pool cannot run on, whatever the interleaving. */
  lemma {:induction false} ExecutionsEnd(c: Config, states: seq<State>, steps: seq<Step>)
    requires c.Valid() && Execution(c, states, steps)
    ensures |steps| <= 7 * |c.jobs| + 5 * c.processors + 2
  {
    WorkLeft(c, states, steps, |steps|);
  }

  /** An execution that cannot go on has finished: there is no deadlock. */
  lemma {:induction false} NoDeadlock(c: Config, states: seq<State>, steps: seq<Step>)
    requires c.Valid() && Execution(c, states, steps) && (c.processors > 0 || c.jobs == [])
    ensures !CanMove(c, states[|steps|]) ==> states[|steps|].exitCode.Some?
  {
    InvAlways(c, states, steps, |steps|);
    if states[|steps|].exitCode.None? {
      NeverStuck(c, states[|steps|]);
    }
  }

  lemma OneMoreStep(c: Config, states: seq<State>, steps: seq<Step>, step: Step)
    requires Execution(c, states, steps) && Enabled(c, states[|steps|], step)
    ensures Execution(c, states + [Apply(c, states[|steps|], step)], steps + [step])
  {
  }

  /** Every execution can be continued to a finished one, whatever has happened so far. */
  lemma {:induction false} CanFinish(c: Config, states: seq<State>, steps: seq<Step>)
      returns (allStates: seq<State>, allSteps: seq<Step>)
    requires c.Valid() && Execution(c, states, steps) && (c.processors > 0 || c.jobs == [])
    ensures Execution(c, allStates, allSteps) && states <= allStates && steps <= allSteps
    ensures allStates[|allSteps|].exitCode.Some?
    decreases 7 * |c.jobs| + 5 * c.processors + 2 - |steps|
  {
    var last := states[|steps|];
    if last.exitCode.Some? {
      return states, steps;
    }
    InvAlways(c, states, steps, |steps|);
    NeverStuck(c, last);
    var step :| step != Interrupt && Enabled(c, last, step);
    OneMoreStep(c, states, steps, step);
    ExecutionsEnd(c, states + [Apply(c, last, step)], steps + [step]);
    allStates, allSteps := CanFinish(c, states + [Apply(c, last, step)], steps + [step]);
  }

  // ----- The outcome

  /** The job was not interrupted, and was skipped or returned zero. */
  predicate Good(j: Job) { !j.isBreak && (j.isSkip || j.returncode == 0) }

  lemma {:induction false} TallyCounts(jobs: seq<Job>)
    ensures var t := TallyOf(jobs);
            && t.passed + t.skipped <= |jobs|
            && (t.passed + t.skipped == |jobs| <==> forall i :: 0 <= i < |jobs| ==> Good(jobs[i]))
  {
    if jobs == [] {
    } else {
      var init := jobs[..|jobs| - 1];
      TallyCounts(init);
      assert forall i :: 0 <= i < |init| ==> jobs[i] == init[i];
      if forall i :: 0 <= i < |init| ==> Good(init[i]) {
        assert Good(jobs[|jobs| - 1]) <==> forall i :: 0 <= i < |jobs| ==> Good(jobs[i]);
      }
    }
  }

  /** A finished run: one result per job, every job exactly once among them, all workers
      stopped and joined, and exit code 0 exactly when every job passed or was skipped and
      none was interrupted. */
  lemma {:induction false} FinishedRun(c: Config, states: seq<State>, steps: seq<Step>, i: nat)
    requires c.Valid() && Execution(c, states, steps) && i < |states| && states[i].exitCode.Some?
    ensures var s := states[i];
            && |s.collected| == |c.jobs| && (forall k :: Occurs(s.collected, k) == Occurs(c.jobs, k))
            && s.toDispatch == [] && s.output == []
            && s.joined == |s.workers| == c.processors && (forall w :: 0 <= w < |s.workers| ==> s.workers[w].Exited?)
            && (s.exitCode.value == 0 <==> forall j :: 0 <= j < |s.collected| ==> Good(s.collected[j]))
            && (!s.threadExit ==> forall j :: 0 <= j < |s.collected| ==> !s.collected[j].isBreak)
  {
    InvAlways(c, states, steps, i);
    var s := states[i];
    forall k ensures Occurs(s.collected, k) == Occurs(c.jobs, k) {
      CollectedAreAll(c, s, k);
    }
    CollectedAreAll(c, s, None);
    TallyCounts(s.collected);
  }
}
