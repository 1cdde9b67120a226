/** The installer's worker thread and the main thread that starts and cancels it, interleaved at their accesses to the
    shared state and cancel flag. */
module InstallWorker {

  datatype InstallState = Idle | Running | Cancelled | Failed | Succeeded

  /** What a worker does, in order. */
  datatype Event =
    | Checked(saw: bool)
    | Progress(percent: nat)
    | Returned(i: nat)
    | Threw(i: nat)
    | Ended(state: InstallState)

  /** Where the worker is; `Resting` is no worker. */
  datatype Worker =
    | Resting | Resetting | Check(i: nat) | Announce(i: nat) | Execute(i: nat) | Conclude | Finish(state: InstallState)

  /** Where the main thread is: inside `StartInstall` after the test or after the store, inside `CancelInstall` after
      the test, or in neither. */
  datatype Main = AtRest | StartTested | StartStored | CancelTested

  datatype Config = Config(
    state: InstallState,
    cancel: bool,
    main: Main,
    worker: Worker,
    run: seq<Event>,
    finished: seq<seq<Event>>)

  datatype Action = Start | Cancel | MainStep | WorkerStep(throws: bool)

  function Initial(): Config {
    Config(Idle, false, AtRest, Resting, [], [])
  }

  function Percent(n: nat, i: nat): nat
    requires n > 0
  {
    (100 / n) * i
  }

  /** One step of one thread; an action a thread cannot take leaves everything as it is. */
  function Next(n: nat, c: Config, action: Action): Config {
    match action
    case Start => if c.main.AtRest? && c.state != Running then c.(main := StartTested) else c
    case Cancel => if c.main.AtRest? && c.state == Running then c.(main := CancelTested) else c
    case MainStep =>
      (match c.main
       case AtRest => c
       case StartTested => c.(state := Running, main := StartStored)
       case StartStored => c.(worker := Resetting, run := [], main := AtRest)
       case CancelTested => c.(cancel := true, main := AtRest))
    case WorkerStep(throws) =>
      (match c.worker
       case Resting => c
       case Resetting => c.(cancel := false, worker := if n > 0 then Check(0) else Conclude)
       case Check(i) =>
         c.(run := c.run + [Checked(c.cancel)], worker := if c.cancel then Finish(Cancelled) else Announce(i))
       case Announce(i) => if n == 0 then c else c.(run := c.run + [Progress(Percent(n, i))], worker := Execute(i))
       case Execute(i) =>
         if throws then c.(run := c.run + [Threw(i)], worker := Finish(Failed))
         else c.(run := c.run + [Returned(i)], worker := if i + 1 < n then Check(i + 1) else Conclude)
       case Conclude => c.(run := c.run + [Progress(100)], worker := Finish(Succeeded))
       case Finish(state) => c.(state := state, worker := Resting, run := [],
                                finished := c.finished + [c.run + [Ended(state)]]))
  }

  function Exec(n: nat, c: Config, actions: seq<Action>): Config
    decreases |actions|
  {
    if actions == [] then c else Exec(n, Next(n, c, actions[0]), actions[1..])
  }

  // ---------- the shape of a run ----------

  /** The first `k` steps each checked, announced and returned. */
  function Passes(n: nat, k: nat): seq<Event>
    requires k <= n
  {
    if k == 0 then []
    else Passes(n, k - 1) + [Checked(false)] + [Progress(Percent(n, k - 1))] + [Returned(k - 1)]
  }

  ghost predicate Success(n: nat, run: seq<Event>) {
    run == Passes(n, n) + [Progress(100)] + [Ended(Succeeded)]
  }

  ghost predicate Cancellation(n: nat, run: seq<Event>, k: nat) {
    k < n && run == Passes(n, k) + [Checked(true)] + [Ended(Cancelled)]
  }

  ghost predicate Failure(n: nat, run: seq<Event>, k: nat) {
    k < n && run == Passes(n, k) + [Checked(false)] + [Progress(Percent(n, k))] + [Threw(k)] + [Ended(Failed)]
  }

  /** A finished run went through all steps, or stopped at a check that saw the cancel, or at a step that threw. */
  ghost predicate Complete(n: nat, run: seq<Event>) {
    Success(n, run) || (exists k :: Cancellation(n, run, k)) || (exists k :: Failure(n, run, k))
  }

  ghost predicate Partial(n: nat, worker: Worker, run: seq<Event>) {
    match worker
    case Resting => run == []
    case Resetting => run == []
    case Check(i) => i < n && run == Passes(n, i)
    case Announce(i) => i < n && run == Passes(n, i) + [Checked(false)]
    case Execute(i) => i < n && run == Passes(n, i) + [Checked(false)] + [Progress(Percent(n, i))]
    case Conclude => run == Passes(n, n)
    case Finish(s) => s != Running && Complete(n, run + [Ended(s)])
  }

  /** The state is `Running` exactly while a worker is there or about to be, and there is never a second worker. */
  ghost predicate Coherent(n: nat, c: Config) {
    Partial(n, c.worker, c.run) && (forall run <- c.finished :: Complete(n, run)) &&
    (c.state == Running <==> c.worker != Resting || c.main == StartStored) &&
    (c.main == StartTested || c.main == StartStored ==> c.worker == Resting)
  }

  lemma StepKeepsCoherent(n: nat, c: Config, action: Action)
    requires Coherent(n, c)
    ensures Coherent(n, Next(n, c, action))
  {
    hide Passes, Percent;
    if action.WorkerStep? {
      match c.worker
      case Check(i) =>
        if c.cancel { assert Cancellation(n, c.run + [Checked(true)] + [Ended(Cancelled)], i); }
      case Execute(i) =>
        if action.throws {
          assert Failure(n, c.run + [Threw(i)] + [Ended(Failed)], i);
        } else {
          PassesNext(n, i);
        }
      case Resetting => PassesNone(n);
      case Conclude => assert Success(n, c.run + [Progress(100)] + [Ended(Succeeded)]);
      case _ =>
    }
  }

  lemma PassesNext(n: nat, i: nat)
    requires i < n
    ensures Passes(n, i + 1) == Passes(n, i) + [Checked(false)] + [Progress(Percent(n, i))] + [Returned(i)]
  {
  }

  lemma PassesNone(n: nat)
    ensures Passes(n, 0) == []
  {
  }

  /** Under every interleaving of start, cancel and worker steps, every finished run is complete. */
  lemma {:induction false} EveryRunComplete(n: nat, c: Config, actions: seq<Action>)
    requires Coherent(n, c)
    ensures Coherent(n, Exec(n, c, actions))
    decreases |actions|
  {
    if actions != [] {
      StepKeepsCoherent(n, c, actions[0]);
      EveryRunComplete(n, Next(n, c, actions[0]), actions[1..]);
    }
  }

  lemma FromTheStart(n: nat, actions: seq<Action>)
    ensures Coherent(n, Exec(n, Initial(), actions))
  {
    EveryRunComplete(n, Initial(), actions);
  }

  // ---------- what a complete run means ----------

  /** The steps a run executed, in order. */
  function Steps(run: seq<Event>): seq<nat> {
    if run == [] then []
    else
      var last := run[|run| - 1];
      Steps(run[..|run| - 1]) + (if last.Returned? || last.Threw? then [last.i] else [])
  }

  function UpTo(k: nat): seq<nat> {
    seq(k, i => i)
  }

  lemma StepsAppend(run: seq<Event>, e: Event)
    ensures Steps(run + [e]) == if e.Returned? || e.Threw? then Steps(run) + [e.i] else Steps(run)
  {
    assert (run + [e])[..|run|] == run;
  }

  lemma OneMoreStep(k: nat)
    ensures UpTo(k) + [k] == UpTo(k + 1)
  {
  }

  lemma {:induction false} PassesSteps(n: nat, k: nat)
    requires k <= n
    ensures Steps(Passes(n, k)) == UpTo(k)
  {
    hide Steps, UpTo, Percent;
    if k == 0 {
      NoStep();
    } else {
      PassesSteps(n, k - 1);
      StepsAppendThree(Passes(n, k - 1), Checked(false), Progress(Percent(n, k - 1)), Returned(k - 1));
      OneMoreStep(k - 1);
    }
  }

  lemma NoStep()
    ensures Steps([]) == UpTo(0)
  {
  }

  /** A check, a progress report and what the step does. */
  lemma StepsAppendThree(run: seq<Event>, a: Event, b: Event, c: Event)
    requires a.Checked? && b.Progress?
    ensures Steps(run + [a] + [b] + [c]) == if c.Returned? || c.Threw? then Steps(run) + [c.i] else Steps(run)
  {
    hide Steps;
    StepsAppend(run, a);
    StepsAppend(run + [a], b);
    StepsAppend(run + [a] + [b], c);
  }

  function Outcome(run: seq<Event>): InstallState
    requires run != [] && run[|run| - 1].Ended?
  {
    run[|run| - 1].state
  }

  /** Passes hold no end, no throw and no cancelled check, and their progress rises and stays below 100. */
  lemma {:induction false} PassesOnly(n: nat, k: nat)
    requires k <= n
    ensures forall i | 0 <= i < |Passes(n, k)| :: Quiet(n, k, Passes(n, k)[i])
    ensures Rising(Passes(n, k))
  {
    hide Percent;
    if k > 0 {
      PassesOnly(n, k - 1);
      PercentBounds(n, k - 1);
    }
  }

  ghost predicate Quiet(n: nat, k: nat, e: Event) {
    !e.Ended? && !e.Threw? && e != Checked(true) &&
    (e.Progress? ==> n > 0 && e.percent < 100 && e.percent <= Percent(n, k))
  }

  ghost predicate Rising(run: seq<Event>) {
    forall i, j | 0 <= i < j < |run| :: run[i].Progress? && run[j].Progress? ==> run[i].percent <= run[j].percent
  }

  lemma PercentBounds(n: nat, i: nat)
    requires i < n
    ensures Percent(n, i) <= Percent(n, i + 1) && Percent(n, i) < 100
  {
    var q := 100 / n;
    assert q * n <= 100;
    OnePassMore(q, i);
    PassesGrow(q, i + 1, n);
  }

  lemma OnePassMore(q: nat, i: nat)
    ensures q * (i + 1) == q * i + q
  {
  }

  lemma {:induction false} PassesGrow(q: nat, i: nat, n: nat)
    requires i <= n
    ensures q * i <= q * n
    decreases n
  {
    if i < n {
      PassesGrow(q, i, n - 1);
      OnePassMore(q, n - 1);
    }
  }

  lemma SuccessSteps(n: nat, run: seq<Event>)
    requires Success(n, run)
    ensures Steps(run) == UpTo(n)
  {
    hide Steps, UpTo, Passes;
    PassesSteps(n, n);
    StepsAppend(Passes(n, n), Progress(100));
    StepsAppend(Passes(n, n) + [Progress(100)], Ended(Succeeded));
  }

  lemma CancellationSteps(n: nat, run: seq<Event>, k: nat)
    requires Cancellation(n, run, k)
    ensures Steps(run) == UpTo(k)
  {
    hide Steps, UpTo, Passes;
    PassesSteps(n, k);
    StepsAppend(Passes(n, k), Checked(true));
    StepsAppend(Passes(n, k) + [Checked(true)], Ended(Cancelled));
  }

  lemma FailureSteps(n: nat, run: seq<Event>, k: nat)
    requires Failure(n, run, k)
    ensures Steps(run) == UpTo(k + 1)
  {
    hide Steps, UpTo, Percent, Passes;
    var before := Passes(n, k);
    PassesSteps(n, k);
    StepsAppendThree(before, Checked(false), Progress(Percent(n, k)), Threw(k));
    StepsAppend(before + [Checked(false)] + [Progress(Percent(n, k))] + [Threw(k)], Ended(Failed));
    OneMoreStep(k);
  }

  /** A complete run executes a prefix of the steps in order and ends, once, with a final state: `Succeeded` exactly
      when every step returned. */
  lemma CompleteRunsInOrder(n: nat, run: seq<Event>)
    requires Complete(n, run)
    ensures run != [] && run[|run| - 1].Ended? && Outcome(run) in {Succeeded, Cancelled, Failed}
    ensures forall i | 0 <= i < |run| - 1 :: !run[i].Ended?
    ensures |Steps(run)| <= n && Steps(run) == UpTo(|Steps(run)|)
    ensures Outcome(run) == Succeeded <==> |Steps(run)| == n && forall i | 0 <= i < |run| :: !run[i].Threw?
  {
    hide Percent, Passes, Steps;
    if Success(n, run) {
      SuccessSteps(n, run);
      PassesOnly(n, n);
    } else if k :| Cancellation(n, run, k) {
      CancellationSteps(n, run, k);
      PassesOnly(n, k);
    } else {
      var k :| Failure(n, run, k);
      FailureSteps(n, run, k);
      PassesOnly(n, k);
      assert run[|run| - 2].Threw?;
    }
  }

  /** After a check that saw the cancel the run only ends. */
  lemma NothingRunsAfterCancelSeen(n: nat, run: seq<Event>, i: nat)
    requires Complete(n, run) && i < |run| && run[i] == Checked(true)
    ensures i == |run| - 2 && run[i + 1] == Ended(Cancelled)
  {
    hide Percent, Passes;
    forall k | 0 <= k <= n ensures forall j | 0 <= j < |Passes(n, k)| :: Quiet(n, k, Passes(n, k)[j]) {
      PassesOnly(n, k);
    }
  }

  /** A run's progress never falls, stays within 100, and reaches 100 exactly when the run succeeds. */
  lemma ProgressRises(n: nat, run: seq<Event>)
    requires Complete(n, run)
    ensures Rising(run)
    ensures forall i | 0 <= i < |run| :: run[i].Progress? ==> run[i].percent <= 100
    ensures (exists i | 0 <= i < |run| :: run[i] == Progress(100)) <==> run[|run| - 1] == Ended(Succeeded)
  {
    hide Percent, Passes;
    if Success(n, run) {
      PassesOnly(n, n);
      assert run[|run| - 2] == Progress(100);
    } else if k :| Cancellation(n, run, k) {
      PassesOnly(n, k);
    } else {
      var k :| Failure(n, run, k);
      PassesOnly(n, k);
      PercentBounds(n, k);
    }
  }

  /** After `done` of `n` steps the progress is their share of whole percents, and 100 after all of them. */
  ghost predicate IsShare(n: nat, done: nat, percent: nat) {
    if done == n then percent == 100
    else done < n && exists each: nat :: each * n <= 100 < each * n + n && percent == each * done
  }

  /** Every progress report tells the share of the steps executed before it. */
  ghost predicate Fair(n: nat, run: seq<Event>) {
    forall j | 0 <= j < |run| :: run[j].Progress? ==> IsShare(n, |Steps(run[..j])|, run[j].percent)
  }

  lemma FairAppend(n: nat, run: seq<Event>, e: Event)
    requires Fair(n, run) && (e.Progress? ==> IsShare(n, |Steps(run)|, e.percent))
    ensures Fair(n, run + [e])
  {
    hide Steps, IsShare;
    forall j | 0 <= j <= |run| ensures (run + [e])[..j] == run[..j] {
    }
    assert run[..|run|] == run;
  }

  lemma PercentIsShare(n: nat, i: nat)
    requires i < n
    ensures IsShare(n, i, Percent(n, i))
  {
    var each := 100 / n;
    assert each * n <= 100 < each * n + n;
  }

  lemma {:induction false} PassesFair(n: nat, k: nat)
    requires k <= n
    ensures Fair(n, Passes(n, k)) && |Steps(Passes(n, k))| == k
  {
    hide Fair, IsShare, Percent, Steps;
    PassesSteps(n, k);
    if k == 0 {
      FairNone(n);
    } else {
      PassesFair(n, k - 1);
      AnnouncedFair(n, k - 1);
      FairAppend(n, Passes(n, k - 1) + [Checked(false)] + [Progress(Percent(n, k - 1))], Returned(k - 1));
    }
  }

  lemma FairNone(n: nat)
    ensures Fair(n, [])
  {
  }

  /** The report after `k` steps is fair. */
  lemma AnnouncedFair(n: nat, k: nat)
    requires k < n && Fair(n, Passes(n, k)) && |Steps(Passes(n, k))| == k
    ensures Fair(n, Passes(n, k) + [Checked(false)] + [Progress(Percent(n, k))])
  {
    hide Fair, IsShare, Percent, Passes, Steps;
    PercentIsShare(n, k);
    FairAppend(n, Passes(n, k), Checked(false));
    StepsAppend(Passes(n, k), Checked(false));
    FairAppend(n, Passes(n, k) + [Checked(false)], Progress(Percent(n, k)));
  }

  /** In a complete run every reported progress is the share of the steps executed so far, 100 only after all. */
  lemma ProgressIsShare(n: nat, run: seq<Event>)
    requires Complete(n, run)
    ensures Fair(n, run)
  {
    hide Fair, Percent, Passes, Steps;
    if Success(n, run) {
      PassesFair(n, n);
      AllDoneFair(n);
      FairAppend(n, Passes(n, n), Progress(100));
      FairAppend(n, Passes(n, n) + [Progress(100)], Ended(Succeeded));
    } else if k :| Cancellation(n, run, k) {
      PassesFair(n, k);
      FairAppend(n, Passes(n, k), Checked(true));
      FairAppend(n, Passes(n, k) + [Checked(true)], Ended(Cancelled));
    } else {
      var k :| Failure(n, run, k);
      var begun := Passes(n, k) + [Checked(false)] + [Progress(Percent(n, k))];
      PassesFair(n, k);
      AnnouncedFair(n, k);
      FairAppend(n, begun, Threw(k));
      FairAppend(n, begun + [Threw(k)], Ended(Failed));
    }
  }

  lemma AllDoneFair(n: nat)
    ensures IsShare(n, n, 100)
  {
  }

  /** The worker's loop by itself: `sees` is what each read of the cancel flag gives, `throws` what each step does. */
  method RunInstall(n: nat, sees: nat -> bool, throws: nat -> bool) returns (run: seq<Event>, state: InstallState)
    ensures Complete(n, run) && run[|run| - 1] == Ended(state)
    ensures state == Succeeded <==> forall i | 0 <= i < n :: !sees(i) && !throws(i)
    ensures state == Cancelled ==> exists i | 0 <= i < n :: sees(i) && forall j | 0 <= j < i :: !sees(j) && !throws(j)
  {
    hide Passes;
    run := [];
    PassesNone(n);
    var i := 0;
    while i < n
      invariant 0 <= i <= n && run == Passes(n, i)
      invariant forall j | 0 <= j < i :: !sees(j) && !throws(j)
    {
      run := run + [Checked(sees(i))];
      if sees(i) {
        run, state := run + [Ended(Cancelled)], Cancelled;
        assert Cancellation(n, run, i);
        return;
      }
      var progress := (100 / n) * i;
      run := run + [Progress(progress)];
      if throws(i) {
        run, state := run + [Threw(i)] + [Ended(Failed)], Failed;
        assert Failure(n, run, i);
        return;
      }
      run := run + [Returned(i)];
      PassesNext(n, i);
      i := i + 1;
    }
    run, state := run + [Progress(100)] + [Ended(Succeeded)], Succeeded;
    assert Success(n, run);
  }

  // ---------- cancelling ----------

  /** At most `bound` steps are executed in the run that follows `done` finished ones. */
  ghost predicate Bounded(n: nat, c: Config, done: nat, bound: nat) {
    |c.finished| >= done &&
    (|c.finished| > done ==> |Steps(c.finished[done])| <= bound) &&
    (|c.finished| == done ==>
       match c.worker
       case Check(i) => c.cancel && i <= bound
       case Announce(i) => c.cancel && i < bound
       case Execute(i) => c.cancel && i < bound
       case Conclude => n <= bound
       case Finish(_) => |Steps(c.run)| <= bound
       case _ => false)
  }

  lemma StepKeepsBounded(n: nat, c: Config, action: Action, done: nat, bound: nat)
    requires Coherent(n, c) && Bounded(n, c, done, bound)
    ensures Bounded(n, Next(n, c, action), done, bound)
  {
    hide Percent, Passes, Steps;
    if action.WorkerStep? {
      match c.worker
      case Check(i) =>
        PassesSteps(n, i);
        StepsAppend(c.run, Checked(c.cancel));
      case Execute(i) =>
        PassesSteps(n, i);
        StepsAppend(Passes(n, i), Checked(false));
        StepsAppend(Passes(n, i) + [Checked(false)], Progress(Percent(n, i)));
        StepsAppend(c.run, Threw(i));
      case Conclude =>
        PassesSteps(n, n);
        StepsAppend(c.run, Progress(100));
      case Finish(state) => StepsAppend(c.run, Ended(state));
      case _ =>
    }
  }

  lemma {:induction false} RunKeepsBounded(n: nat, c: Config, actions: seq<Action>, done: nat, bound: nat)
    requires Coherent(n, c) && Bounded(n, c, done, bound)
    ensures Bounded(n, Exec(n, c, actions), done, bound)
    decreases |actions|
  {
    hide Bounded, Coherent;
    if actions != [] {
      StepKeepsCoherent(n, c, actions[0]);
      StepKeepsBounded(n, c, actions[0], done, bound);
      RunKeepsBounded(n, Next(n, c, actions[0]), actions[1..], done, bound);
    }
  }

  /** A cancel in force after the worker's reset is honoured: whatever happens next, the run executes no step after the
      one it is at, so it succeeds only if that is the last. */
  lemma CancelHonoured(n: nat, c: Config, actions: seq<Action>)
    requires Coherent(n, c) && c.cancel && (c.worker.Check? || c.worker.Announce? || c.worker.Execute?)
    ensures var after, bound := Exec(n, c, actions), if c.worker.Check? then c.worker.i else c.worker.i + 1;
            |after.finished| > |c.finished| ==>
              var run := after.finished[|c.finished|];
              |Steps(run)| <= bound && run != [] && (bound < n ==> run[|run| - 1] != Ended(Succeeded))
  {
    hide Complete, Steps, Passes;
    var after, bound := Exec(n, c, actions), if c.worker.Check? then c.worker.i else c.worker.i + 1;
    RunKeepsBounded(n, c, actions, |c.finished|, bound);
    EveryRunComplete(n, c, actions);
    if |after.finished| > |c.finished| {
      CompleteRunsInOrder(n, after.finished[|c.finished|]);
    }
  }

  /** A cancel that comes between the start and the worker's reset is lost: from the reset on everything happens as if
      it had not been made. */
  lemma CancelBeforeResetIsLost(n: nat, c: Config, throws: bool, actions: seq<Action>)
    requires c.worker == Resetting && c.state == Running && c.main == AtRest
    ensures Exec(n, c, [Cancel, MainStep, WorkerStep(throws)] + actions) == Exec(n, c, [WorkerStep(throws)] + actions)
  {
    var with := [Cancel, MainStep, WorkerStep(throws)] + actions;
    assert with[1..] == [MainStep, WorkerStep(throws)] + actions;
    assert with[1..][1..] == [WorkerStep(throws)] + actions;
    assert with[1..][1..][1..] == actions;
    assert ([WorkerStep(throws)] + actions)[1..] == actions;
    var c1 := Next(n, Next(n, c, Cancel), MainStep);
    assert Exec(n, c, with) == Exec(n, c1, with[1..][1..]) == Exec(n, Next(n, c1, WorkerStep(throws)), actions);
  }

  // ---------- exactly when a cancel is in time ----------

  /** The next run to finish ends in success. */
  ghost predicate Succeeds(n: nat, c: Config, actions: seq<Action>) {
    var finished, next := Exec(n, c, actions).finished, |c.finished|;
    |finished| > next && finished[next] != [] && finished[next][|finished[next]| - 1] == Ended(Succeeded)
  }

  ghost predicate CanSucceed(n: nat, c: Config) {
    exists actions :: Succeeds(n, c, actions)
  }

  /** Where the worker is when the flag is stored in time: at a check, in a step that is not the last, or already done
      without success. */
  predicate InTime(n: nat, worker: Worker) {
    worker.Check? || ((worker.Announce? || worker.Execute?) && worker.i + 1 < n) ||
    (worker.Finish? && worker.state != Succeeded)
  }

  lemma CanSucceedBefore(n: nat, c: Config, action: Action)
    requires CanSucceed(n, Next(n, c, action)) && Next(n, c, action).finished == c.finished
    ensures CanSucceed(n, c)
  {
    hide Next;
    var actions :| Succeeds(n, Next(n, c, action), actions);
    assert ([action] + actions)[1..] == actions;
    assert Succeeds(n, c, [action] + actions);
  }

  lemma FinishSucceeds(n: nat, c: Config)
    requires c.worker == Finish(Succeeded)
    ensures CanSucceed(n, c)
  {
    var step := WorkerStep(false);
    assert [step][1..] == [];
    assert Exec(n, c, [step]) == Next(n, c, step);
    assert Succeeds(n, c, [step]);
  }

  lemma ConcludeSucceeds(n: nat, c: Config)
    requires c.worker == Conclude
    ensures CanSucceed(n, c)
  {
    hide CanSucceed;
    FinishSucceeds(n, Next(n, c, WorkerStep(false)));
    CanSucceedBefore(n, c, WorkerStep(false));
  }

  /** The last step can return even when the flag is set. */
  lemma LastStepSucceeds(n: nat, c: Config)
    requires (c.worker.Announce? || c.worker.Execute?) && c.worker.i + 1 == n
    ensures CanSucceed(n, c)
    decreases c.worker.Announce?
  {
    hide CanSucceed, Percent;
    var step := WorkerStep(false);
    if c.worker.Announce? {
      LastStepSucceeds(n, Next(n, c, step));
    } else {
      ConcludeSucceeds(n, Next(n, c, step));
    }
    CanSucceedBefore(n, c, step);
  }

  lemma {:induction false} ChecksSucceed(n: nat, c: Config)
    requires c.worker.Check? && c.worker.i < n && !c.cancel
    ensures CanSucceed(n, c)
    decreases n - c.worker.i
  {
    hide CanSucceed, Percent;
    var step := WorkerStep(false);
    var announced := Next(n, c, step);
    var executing := Next(n, announced, step);
    var returned := Next(n, executing, step);
    if c.worker.i + 1 < n { ChecksSucceed(n, returned); } else { ConcludeSucceeds(n, returned); }
    CanSucceedBefore(n, executing, step);
    CanSucceedBefore(n, announced, step);
    CanSucceedBefore(n, c, step);
  }

  /** The reset erases the flag. */
  lemma ResetSucceeds(n: nat, c: Config)
    requires c.worker == Resetting
    ensures CanSucceed(n, c)
  {
    hide CanSucceed;
    var reset := Next(n, c, WorkerStep(false));
    if n > 0 { ChecksSucceed(n, reset); } else { ConcludeSucceeds(n, reset); }
    CanSucceedBefore(n, c, WorkerStep(false));
  }

  /** A flag stored after the end is erased by the next run. */
  lemma NextRunSucceeds(n: nat, c: Config)
    requires c.worker == Resting && c.main == AtRest && c.state != Running
    ensures CanSucceed(n, c)
  {
    hide CanSucceed;
    var tested := Next(n, c, Start);
    var stored := Next(n, tested, MainStep);
    ResetSucceeds(n, Next(n, stored, MainStep));
    CanSucceedBefore(n, stored, MainStep);
    CanSucceedBefore(n, tested, MainStep);
    CanSucceedBefore(n, c, Start);
  }

  lemma {:induction false} FinishedKept(n: nat, c: Config, actions: seq<Action>)
    ensures c.finished <= Exec(n, c, actions).finished
    decreases |actions|
  {
    if actions != [] { FinishedKept(n, Next(n, c, actions[0]), actions[1..]); }
  }

  /** A worker about to finish finishes with what it has. */
  lemma {:induction false} FinishIsSettled(n: nat, c: Config, actions: seq<Action>)
    requires Coherent(n, c) && c.worker.Finish? && c.worker.state != Succeeded
    ensures !Succeeds(n, c, actions)
    decreases |actions|
  {
    hide Partial, Complete;
    if actions != [] {
      var next := Next(n, c, actions[0]);
      StepKeepsCoherent(n, c, actions[0]);
      if actions[0].WorkerStep? {
        FinishedKept(n, next, actions[1..]);
        var finished := Exec(n, c, actions).finished;
        assert finished[|c.finished|] == next.finished[|c.finished|] == c.run + [Ended(c.worker.state)];
      } else {
        FinishIsSettled(n, next, actions[1..]);
      }
    }
  }

  /** When the cancel flag is stored, the next run to finish cannot succeed any more exactly when the worker is at a
      check, in a step that is not the last, or already done without success. Before the reset, in the last step, at
      the end and after it the request is lost. */
  lemma CancelInTimeExactly(n: nat, c: Config)
    requires Coherent(n, c) && c.main == CancelTested
    ensures !CanSucceed(n, Next(n, c, MainStep)) <==> InTime(n, c.worker)
  {
    hide Succeeds, Partial, Complete, Steps;
    var stored := Next(n, c, MainStep);
    StepKeepsCoherent(n, c, MainStep);
    PlaceInRange(n, c);
    if InTime(n, c.worker) {
      forall actions ensures !Succeeds(n, stored, actions) {
        if c.worker.Finish? { FinishIsSettled(n, stored, actions); } else { HonouredFails(n, stored, actions); }
      }
    } else {
      match c.worker
      case Resting => NextRunSucceeds(n, stored);
      case Resetting => ResetSucceeds(n, stored);
      case Announce(_) => LastStepSucceeds(n, stored);
      case Execute(_) => LastStepSucceeds(n, stored);
      case Conclude => ConcludeSucceeds(n, stored);
      case Finish(_) => FinishSucceeds(n, stored);
    }
  }

  lemma PlaceInRange(n: nat, c: Config)
    requires Coherent(n, c)
    ensures c.worker.Check? || c.worker.Announce? || c.worker.Execute? ==> c.worker.i < n
  {
  }

  lemma HonouredFails(n: nat, c: Config, actions: seq<Action>)
    requires Coherent(n, c) && c.cancel
    requires c.worker.Check? || ((c.worker.Announce? || c.worker.Execute?) && c.worker.i + 1 < n)
    ensures !Succeeds(n, c, actions)
  {
    hide Partial, Complete, Steps;
    PlaceInRange(n, c);
    CancelHonoured(n, c, actions);
  }
}
