/**
 * The per-instance lifecycle state machine of the deployer
 * (`ctl/src/deployer/instance.rs`).
 *
 * `Next` is the pure core of `instance::next`: instead of spawning background
 * RPC tasks it returns them as `Effect` values next to the new context. The
 * `panic!` on an unexpected (state, transition) pair becomes the precondition
 * `Defined`.
 */
module Instance {
  import opened Proto
  import opened Wrappers

  /** Attempts are counted from one; the retry guard is `attempt <= MAX`. */
  const INITIAL_ATTEMPT: u8 := 1

  datatype State =
    | Init
    | Deploying(attempt: u8, spec: InstanceSpec)
    | FailedToStart
    | PreTerminating
    | NeverStarted
    | Started
    | UnexpectedTerminated
    | UnexpectedCrashed
    | Terminating(attempt: u8)
    | Terminated
    | Crashed
    | FailedToTerminate

  datatype TerminalKind = NonTerminal | SuccessfulTerminal | UnsuccessfulTerminal

  datatype Transition =
    | Deploy(spec: InstanceSpec)
    | Terminate
    | Status(status: InstanceStatus)
    | FailedToTerminate(error: Report)
    | FailedToDeploy(error: Report)

  /** The state of one instance together with the data that never changes. */
  datatype StateCtx = StateCtx(
    state: State,
    id: InstanceId,
    workerAddr: IpAddr,
    deploymentId: DeploymentId)

  /** A background RPC task `next` schedules; its failure re-enters as a transition of `owner`. */
  datatype Effect =
    | ScheduleDeploy(owner: InstanceId, workerAddr: IpAddr, spec: InstanceSpec)
    | ScheduleTerminate(owner: InstanceId, workerAddr: IpAddr)

  /** The new context and the tasks scheduled on the way there. */
  datatype Step = Step(ctx: StateCtx, effects: seq<Effect>)

  /**
   * `StateCtx::new_init`: a context that carries the given identity and accepts
   * exactly one kind of transition, `Deploy`.
   */
  function NewInit(id: InstanceId, workerAddr: IpAddr, deploymentId: DeploymentId): (r: StateCtx)
    ensures r.id == id && r.workerAddr == workerAddr && r.deploymentId == deploymentId
    ensures Kind(r.state) == NonTerminal && WellFormed(r.state)
    ensures forall t :: Defined(r.state, t) <==> t.Deploy?
  {
    StateCtx(Init, id, workerAddr, deploymentId)
  }

  /** `State::kind`. */
  function Kind(s: State): (k: TerminalKind)
    ensures k == SuccessfulTerminal <==> s.Terminated?
    ensures k == NonTerminal <==>
      s.Init? || s.Deploying? || s.PreTerminating? || s.Started? || s.Terminating?
    ensures k == UnsuccessfulTerminal <==>
      s.FailedToStart? || s.NeverStarted? || s.UnexpectedTerminated? ||
      s.UnexpectedCrashed? || s.Crashed? || s.FailedToTerminate?
  {
    match s
    case Init => NonTerminal
    case Deploying(_, _) => NonTerminal
    case FailedToStart => UnsuccessfulTerminal
    case PreTerminating => NonTerminal
    case NeverStarted => UnsuccessfulTerminal
    case Started => NonTerminal
    case UnexpectedTerminated => UnsuccessfulTerminal
    case UnexpectedCrashed => UnsuccessfulTerminal
    case Terminating(_) => NonTerminal
    case Terminated => SuccessfulTerminal
    case Crashed => UnsuccessfulTerminal
    case FailedToTerminate => UnsuccessfulTerminal
  }

  /** A failed deploy RPC or a `FailedToStart` report: both count against the deploy retries. */
  predicate IsDeployFailure(t: Transition)
  {
    t.FailedToDeploy? || (t.Status? && t.status.FailedToStart?)
  }

  /** A `Crashed` or `Killed` report. */
  predicate IsCrashReport(t: Transition)
  {
    t.Status? && (t.status.Crashed? || t.status.Killed?)
  }

  /** The (state, transition) pairs `next` has an arm for; every other pair panics. */
  predicate Defined(s: State, t: Transition)
    ensures Defined(s, t) ==> Kind(s) == NonTerminal
  {
    match s
    case Init => t.Deploy?
    case Deploying(_, _) =>
      IsDeployFailure(t) || (t.Status? && t.status.Started?) || t.Terminate?
    case PreTerminating =>
      (t.Status? && t.status.Started?) || IsDeployFailure(t)
    case Started =>
      (t.Status? && t.status.Terminated?) || IsCrashReport(t) || t.Terminate?
    case Terminating(_) =>
      t.FailedToTerminate? || (t.Status? && t.status.Terminated?) || IsCrashReport(t)
    case _ => false
  }

  /** Retry counters stay within `1 ..= MAX + 1`. */
  predicate WellFormed(s: State)
  {
    match s
    case Deploying(a, _) => INITIAL_ATTEMPT <= a <= MAX_INSTANCE_DEPLOY_RETRIES + 1
    case Terminating(a) => INITIAL_ATTEMPT <= a <= MAX_INSTANCE_TERMINATION_RETRIES + 1
    case _ => true
  }

  /**
   * A ranking of the states that every defined transition strictly lowers:
   * the number of transitions an instance can still go through.
   */
  function Rank(s: State): nat
    requires WellFormed(s)
  {
    var terminateSpan := MAX_INSTANCE_TERMINATION_RETRIES as int + 1;
    var deploySpan := MAX_INSTANCE_DEPLOY_RETRIES as int + 1;
    match s
    case Init => terminateSpan + deploySpan + 2
    case Deploying(a, _) => terminateSpan + deploySpan + 2 - a as int
    case PreTerminating => terminateSpan + 1
    case Started => terminateSpan + 1
    case Terminating(a) => terminateSpan + 1 - a as int
    case _ => 0
  }

  /** `StateCtx::trans_into`: only the state changes. */
  function TransInto(ctx: StateCtx, next: State): (r: StateCtx)
    ensures r.state == next
    ensures r.id == ctx.id && r.workerAddr == ctx.workerAddr && r.deploymentId == ctx.deploymentId
  {
    ctx.(state := next)
  }

  /**
   * The task `schedule_instance_deployment` spawns: a deploy RPC of `spec` to the
   * instance's own worker, whose failure comes back to this instance.
   */
  function DeployTask(ctx: StateCtx, spec: InstanceSpec): (e: Effect)
    ensures e.ScheduleDeploy? && e.spec == spec
    ensures e.owner == ctx.id && e.workerAddr == ctx.workerAddr
    ensures forall error :: FailureOf(e, error) == FailedToDeploy(error)
  {
    ScheduleDeploy(ctx.id, ctx.workerAddr, spec)
  }

  /**
   * The task `schedule_instance_termination` spawns: a terminate RPC of this
   * instance to its own worker, whose failure comes back to this instance.
   */
  function TerminateTask(ctx: StateCtx): (e: Effect)
    ensures e.ScheduleTerminate?
    ensures e.owner == ctx.id && e.workerAddr == ctx.workerAddr
    ensures forall error :: FailureOf(e, error) == Transition.FailedToTerminate(error)
  {
    ScheduleTerminate(ctx.id, ctx.workerAddr)
  }

  /** The transition a task sends back to its owner when its RPC fails with `error`. */
  function FailureOf(e: Effect, error: Report): Transition
  {
    match e
    case ScheduleDeploy(_, _, _) => FailedToDeploy(error)
    case ScheduleTerminate(_, _) => Transition.FailedToTerminate(error)
  }

  /** `schedule_instance_deployment_reattempt`. */
  function DeploymentReattempt(ctx: StateCtx, attempt: u8, spec: InstanceSpec): (r: Step)
    ensures attempt <= MAX_INSTANCE_DEPLOY_RETRIES <==> r.ctx.state.Deploying?
    ensures r.ctx.state.Deploying? ==>
      r.ctx.state.attempt as int == attempt as int + 1 && r.ctx.state.spec == spec &&
      r.effects == [DeployTask(ctx, spec)]
    ensures !r.ctx.state.Deploying? ==> r.ctx.state.FailedToStart? && r.effects == []
  {
    if attempt <= MAX_INSTANCE_DEPLOY_RETRIES then
      Step(TransInto(ctx, Deploying(attempt + 1, spec)), [DeployTask(ctx, spec)])
    else
      Step(TransInto(ctx, State.FailedToStart), [])
  }

  /** `schedule_instance_termination_reattempt`. */
  function TerminationReattempt(ctx: StateCtx, attempt: u8): (r: Step)
    ensures attempt <= MAX_INSTANCE_TERMINATION_RETRIES <==> r.ctx.state.Terminating?
    ensures r.ctx.state.Terminating? ==>
      r.ctx.state.attempt as int == attempt as int + 1 && r.effects == [TerminateTask(ctx)]
    ensures !r.ctx.state.Terminating? ==> r.ctx.state.FailedToTerminate? && r.effects == []
  {
    if attempt <= MAX_INSTANCE_TERMINATION_RETRIES then
      Step(TransInto(ctx, Terminating(attempt + 1)), [TerminateTask(ctx)])
    else
      Step(TransInto(ctx, State.FailedToTerminate), [])
  }

  /**
   * `instance::next`. Every transition keeps the instance's identity, schedules at
   * most one task and addresses it to the instance's own worker, keeps the retry
   * counters in bounds and strictly lowers the rank.
   */
  function Next(ctx: StateCtx, t: Transition): (r: Step)
    requires Defined(ctx.state, t)
    ensures r.ctx.id == ctx.id && r.ctx.workerAddr == ctx.workerAddr
    ensures r.ctx.deploymentId == ctx.deploymentId
    ensures |r.effects| <= 1
    ensures forall e :: e in r.effects ==> e.owner == ctx.id && e.workerAddr == ctx.workerAddr
    ensures WellFormed(ctx.state) ==> WellFormed(r.ctx.state)
    ensures WellFormed(ctx.state) ==> Rank(r.ctx.state) < Rank(ctx.state)
  {
    match ctx.state
    case Init =>
      Step(TransInto(ctx, Deploying(INITIAL_ATTEMPT, t.spec)), [DeployTask(ctx, t.spec)])
    case Deploying(attempt, spec) =>
      if IsDeployFailure(t) then DeploymentReattempt(ctx, attempt, spec)
      else if t.Status? then Step(TransInto(ctx, State.Started), [])
      else Step(TransInto(ctx, PreTerminating), [])
    case PreTerminating =>
      if t.Status? && t.status.Started? then
        Step(TransInto(ctx, Terminating(INITIAL_ATTEMPT)), [])
      else
        Step(TransInto(ctx, NeverStarted), [])
    case Started =>
      if t.Terminate? then Step(TransInto(ctx, Terminating(INITIAL_ATTEMPT)), [TerminateTask(ctx)])
      else if t.status.Terminated? then Step(TransInto(ctx, UnexpectedTerminated), [])
      else Step(TransInto(ctx, UnexpectedCrashed), [])
    case Terminating(attempt) =>
      if t.FailedToTerminate? then TerminationReattempt(ctx, attempt)
      else if t.status.Terminated? then Step(TransInto(ctx, State.Terminated), [])
      else Step(TransInto(ctx, State.Crashed), [])
  }

  /**
   * Feeds the transitions `ts` one after the other into `Next`, collecting the
   * scheduled tasks; `None` when one of them would make `next` panic.
   */
  function Run(ctx: StateCtx, ts: seq<Transition>): (r: Option<Step>)
    ensures r.Some? ==>
      r.value.ctx.id == ctx.id && r.value.ctx.workerAddr == ctx.workerAddr &&
      r.value.ctx.deploymentId == ctx.deploymentId
    ensures r.Some? ==> |r.value.effects| <= |ts|
    ensures r.Some? ==> forall e :: e in r.value.effects ==>
      e.owner == ctx.id && e.workerAddr == ctx.workerAddr
    ensures r.Some? && WellFormed(ctx.state) ==>
      WellFormed(r.value.ctx.state) && |ts| + Rank(r.value.ctx.state) <= Rank(ctx.state)
    decreases |ts|
  {
    if |ts| == 0 then Some(Step(ctx, []))
    else if !Defined(ctx.state, ts[0]) then None
    else
      var first := Next(ctx, ts[0]);
      match Run(first.ctx, ts[1..])
      case None => None
      case Some(rest) => Some(Step(rest.ctx, first.effects + rest.effects))
  }

  /** `n` copies of the same scheduled task. */
  function Repeat(e: Effect, n: nat): (r: seq<Effect>)
    ensures |r| == n && forall j :: 0 <= j < n ==> r[j] == e
  {
    seq(n, _ => e)
  }

  // ---------------------------------------------------------------------------
  // Properties of single transitions
  // ---------------------------------------------------------------------------

  /** `Init` + `Deploy{spec}` starts attempt one and schedules one deploy to the instance's worker. */
  lemma InitDeploy(ctx: StateCtx, spec: InstanceSpec)
    requires ctx.state.Init?
    ensures Defined(ctx.state, Deploy(spec))
    ensures Next(ctx, Deploy(spec)) ==
      Step(ctx.(state := Deploying(1, spec)), [ScheduleDeploy(ctx.id, ctx.workerAddr, spec)])
  {
  }

  /** A deploy failure retries with the same spec while `attempt <= MAX`, and gives up after. */
  lemma DeployRetry(ctx: StateCtx, t: Transition)
    requires ctx.state.Deploying? && IsDeployFailure(t)
    ensures Defined(ctx.state, t)
    ensures ctx.state.attempt <= MAX_INSTANCE_DEPLOY_RETRIES ==>
      Next(ctx, t) == Step(
        ctx.(state := Deploying(ctx.state.attempt + 1, ctx.state.spec)),
        [ScheduleDeploy(ctx.id, ctx.workerAddr, ctx.state.spec)])
    ensures ctx.state.attempt > MAX_INSTANCE_DEPLOY_RETRIES ==>
      Next(ctx, t) == Step(ctx.(state := State.FailedToStart), [])
  {
  }

  /** A failed terminate RPC retries while `attempt <= MAX`, and gives up after. */
  lemma TerminateRetry(ctx: StateCtx, e: Report)
    requires ctx.state.Terminating?
    ensures Defined(ctx.state, Transition.FailedToTerminate(e))
    ensures ctx.state.attempt <= MAX_INSTANCE_TERMINATION_RETRIES ==>
      Next(ctx, Transition.FailedToTerminate(e)) == Step(
        ctx.(state := Terminating(ctx.state.attempt + 1)),
        [ScheduleTerminate(ctx.id, ctx.workerAddr)])
    ensures ctx.state.attempt > MAX_INSTANCE_TERMINATION_RETRIES ==>
      Next(ctx, Transition.FailedToTerminate(e)) == Step(ctx.(state := State.FailedToTerminate), [])
  {
  }

  /**
   * The edges that leave `Deploying`, `PreTerminating` and `Started` without a retry.
   * Termination is scheduled when a started instance is asked to terminate, but not
   * when a pre-terminating instance reports that it has started.
   */
  lemma LifecycleEdges(ctx: StateCtx, t: Transition)
    requires Defined(ctx.state, t)
    ensures ctx.state.Deploying? && t == Status(InstanceStatus.Started) ==>
      Next(ctx, t) == Step(ctx.(state := State.Started), [])
    ensures ctx.state.Deploying? && t == Terminate ==>
      Next(ctx, t) == Step(ctx.(state := PreTerminating), [])
    ensures ctx.state.PreTerminating? && IsDeployFailure(t) ==>
      Next(ctx, t) == Step(ctx.(state := NeverStarted), [])
    ensures ctx.state.PreTerminating? && t == Status(InstanceStatus.Started) ==>
      Next(ctx, t) == Step(ctx.(state := Terminating(1)), [])
    ensures ctx.state.Started? && t == Terminate ==>
      Next(ctx, t) == Step(ctx.(state := Terminating(1)), [ScheduleTerminate(ctx.id, ctx.workerAddr)])
  {
  }

  /**
   * Status reports while running are unexpected failures; while terminating, a
   * `Terminated` report is the one successful end.
   */
  lemma StatusReports(ctx: StateCtx, t: Transition)
    requires t.Status? && (ctx.state.Started? || ctx.state.Terminating?)
    requires t.status.Terminated? || IsCrashReport(t)
    ensures Defined(ctx.state, t) && Next(ctx, t).effects == []
    ensures ctx.state.Started? && t.status.Terminated? ==>
      Next(ctx, t).ctx.state == UnexpectedTerminated
    ensures ctx.state.Started? && IsCrashReport(t) ==>
      Next(ctx, t).ctx.state == UnexpectedCrashed
    ensures ctx.state.Terminating? && t.status.Terminated? ==>
      Next(ctx, t).ctx.state == State.Terminated
    ensures ctx.state.Terminating? && IsCrashReport(t) ==>
      Next(ctx, t).ctx.state == State.Crashed
    ensures Kind(Next(ctx, t).ctx.state) == SuccessfulTerminal <==>
      ctx.state.Terminating? && t.status.Terminated?
  {
  }

  /** No transition leaves a terminal state: every one would panic. */
  lemma TerminalIsAbsorbing(ctx: StateCtx, ts: seq<Transition>)
    requires Kind(ctx.state) != NonTerminal
    ensures Run(ctx, ts) == if |ts| == 0 then Some(Step(ctx, [])) else None
  {
  }

  /**
   * Every task a transition schedules can fail, and the state the transition
   * leaves behind handles that failure instead of panicking.
   */
  lemma ScheduledFailuresAreHandled(ctx: StateCtx, t: Transition, error: Report)
    requires Defined(ctx.state, t)
    ensures var step := Next(ctx, t);
      forall e :: e in step.effects ==> Defined(step.ctx.state, FailureOf(e, error))
  {
  }

  // ---------------------------------------------------------------------------
  // Properties of runs
  // ---------------------------------------------------------------------------

  /** However the transitions arrive, an instance goes through at most 14 of them. */
  lemma {:induction false} LifecycleIsBounded(id: InstanceId, addr: IpAddr, d: DeploymentId, ts: seq<Transition>)
    requires Run(NewInit(id, addr, d), ts).Some?
    ensures |ts| <= 2 * (MAX_INSTANCE_DEPLOY_RETRIES as int + 1) + 2
  {
    assert WellFormed(Init);
  }

  /**
   * Starting in `Deploying{a}`, a stream of deploy failures walks the counter up to
   * `MAX + 1` and then ends in `FailedToStart`: one deploy task per failure seen
   * while `attempt <= MAX`, none for the last one.
   */
  lemma {:induction false} DeployFailures(ctx: StateCtx, fs: seq<Transition>)
    requires ctx.state.Deploying? && WellFormed(ctx.state)
    requires forall j :: 0 <= j < |fs| ==> IsDeployFailure(fs[j])
    requires ctx.state.attempt as int + |fs| <= MAX_INSTANCE_DEPLOY_RETRIES as int + 2
    ensures var a := ctx.state.attempt as int + |fs|;
      var task := ScheduleDeploy(ctx.id, ctx.workerAddr, ctx.state.spec);
      if a <= MAX_INSTANCE_DEPLOY_RETRIES as int + 1 then
        Run(ctx, fs) == Some(Step(ctx.(state := Deploying(a as u8, ctx.state.spec)), Repeat(task, |fs|)))
      else
        Run(ctx, fs) == Some(Step(ctx.(state := State.FailedToStart), Repeat(task, |fs| - 1)))
    decreases |fs|
  {
    if |fs| > 0 {
      var spec := ctx.state.spec;
      var task := ScheduleDeploy(ctx.id, ctx.workerAddr, spec);
      DeployRetry(ctx, fs[0]);
      var first := Next(ctx, fs[0]);
      if ctx.state.attempt <= MAX_INSTANCE_DEPLOY_RETRIES {
        assert first.ctx == ctx.(state := Deploying(ctx.state.attempt + 1, spec));
        DeployFailures(first.ctx, fs[1..]);
        assert [task] + Repeat(task, |fs| - 1) == Repeat(task, |fs|);
        if ctx.state.attempt as int + |fs| > MAX_INSTANCE_DEPLOY_RETRIES as int + 1 {
          assert [task] + Repeat(task, |fs| - 2) == Repeat(task, |fs| - 1);
        }
      } else {
        assert |fs[1..]| == 0;
      }
    }
  }

  /**
   * An instance whose every deploy attempt fails: after `Deploy` and `MAX + 1`
   * failures it is in `FailedToStart`, having scheduled exactly `MAX + 1` deploy
   * tasks, and nothing more can happen to it.
   */
  lemma {:induction false} DeployExhaustion(ctx: StateCtx, spec: InstanceSpec, fs: seq<Transition>, more: seq<Transition>)
    requires ctx.state.Init?
    requires |fs| == MAX_INSTANCE_DEPLOY_RETRIES as int + 1
    requires forall j :: 0 <= j < |fs| ==> IsDeployFailure(fs[j])
    ensures Run(ctx, [Deploy(spec)] + fs) == Some(Step(
      ctx.(state := State.FailedToStart),
      Repeat(ScheduleDeploy(ctx.id, ctx.workerAddr, spec), MAX_INSTANCE_DEPLOY_RETRIES as int + 1)))
    ensures |more| > 0 ==> Run(ctx, [Deploy(spec)] + fs + more).None?
  {
    var task := ScheduleDeploy(ctx.id, ctx.workerAddr, spec);
    var deploying := ctx.(state := Deploying(1, spec));
    InitDeploy(ctx, spec);
    assert ([Deploy(spec)] + fs)[1..] == fs;
    DeployFailures(deploying, fs);
    assert [task] + Repeat(task, |fs| - 1) == Repeat(task, |fs|);
    RunAppend(ctx, [Deploy(spec)] + fs, more);
    TerminalIsAbsorbing(ctx.(state := State.FailedToStart), more);
  }

  /** The termination counterpart of `DeployFailures`. */
  lemma {:induction false} TerminateFailures(ctx: StateCtx, fs: seq<Transition>)
    requires ctx.state.Terminating? && WellFormed(ctx.state)
    requires forall j :: 0 <= j < |fs| ==> fs[j].FailedToTerminate?
    requires ctx.state.attempt as int + |fs| <= MAX_INSTANCE_TERMINATION_RETRIES as int + 2
    ensures var a := ctx.state.attempt as int + |fs|;
      var task := ScheduleTerminate(ctx.id, ctx.workerAddr);
      if a <= MAX_INSTANCE_TERMINATION_RETRIES as int + 1 then
        Run(ctx, fs) == Some(Step(ctx.(state := Terminating(a as u8)), Repeat(task, |fs|)))
      else
        Run(ctx, fs) == Some(Step(ctx.(state := State.FailedToTerminate), Repeat(task, |fs| - 1)))
    decreases |fs|
  {
    if |fs| > 0 {
      var task := ScheduleTerminate(ctx.id, ctx.workerAddr);
      TerminateRetry(ctx, fs[0].error);
      var first := Next(ctx, fs[0]);
      if ctx.state.attempt <= MAX_INSTANCE_TERMINATION_RETRIES {
        assert first.ctx == ctx.(state := Terminating(ctx.state.attempt + 1));
        TerminateFailures(first.ctx, fs[1..]);
        assert [task] + Repeat(task, |fs| - 1) == Repeat(task, |fs|);
        if ctx.state.attempt as int + |fs| > MAX_INSTANCE_TERMINATION_RETRIES as int + 1 {
          assert [task] + Repeat(task, |fs| - 2) == Repeat(task, |fs| - 1);
        }
      } else {
        assert |fs[1..]| == 0;
      }
    }
  }

  /** Running `ts + more` is running `ts`, then `more` from where `ts` ended. */
  lemma {:induction false} RunAppend(ctx: StateCtx, ts: seq<Transition>, more: seq<Transition>)
    ensures Run(ctx, ts + more) ==
      match Run(ctx, ts)
      case None => None
      case Some(s) =>
        match Run(s.ctx, more)
        case None => None
        case Some(s2) => Some(Step(s2.ctx, s.effects + s2.effects))
    decreases |ts|
  {
    if |ts| == 0 {
      assert ts + more == more;
      match Run(ctx, more)
      case None =>
      case Some(s2) => assert [] + s2.effects == s2.effects;
    } else {
      assert (ts + more)[0] == ts[0];
      assert (ts + more)[1..] == ts[1..] + more;
      if Defined(ctx.state, ts[0]) {
        var first := Next(ctx, ts[0]);
        RunAppend(first.ctx, ts[1..], more);
        match Run(first.ctx, ts[1..])
        case None =>
        case Some(s) =>
          match Run(s.ctx, more)
          case None =>
          case Some(s2) =>
            assert first.effects + (s.effects + s2.effects) == (first.effects + s.effects) + s2.effects;
      }
    }
  }

  // ---------------------------------------------------------------------------
  // The `PreTerminating` + `Started` arm
  // ---------------------------------------------------------------------------

  /**
   * An instance asked to terminate before it started is moved to `Terminating`
   * once it starts, but no terminate RPC is sent: the only task scheduled over the
   * whole run is the first deploy. With no RPC in flight, no `FailedToTerminate`
   * can come back, so the instance stays `Terminating` while it keeps running.
   */
  lemma TerminateBeforeStartSendsNoTerminate(ctx: StateCtx, spec: InstanceSpec)
    requires ctx.state.Init?
    ensures Run(ctx, [Deploy(spec), Terminate, Status(InstanceStatus.Started)]) ==
      Some(Step(ctx.(state := Terminating(INITIAL_ATTEMPT)), [DeployTask(ctx, spec)]))
    ensures TerminateTask(ctx) !in [DeployTask(ctx, spec)]
  {
    var ts := [Deploy(spec), Terminate, Status(InstanceStatus.Started)];
    var c1 := ctx.(state := Deploying(INITIAL_ATTEMPT, spec));
    var c2 := ctx.(state := PreTerminating);
    var c3 := ctx.(state := Terminating(INITIAL_ATTEMPT));
    assert ts[1..] == [Terminate, Status(InstanceStatus.Started)];
    assert ts[1..][1..] == [Status(InstanceStatus.Started)];
    assert Next(ctx, ts[0]) == Step(c1, [DeployTask(ctx, spec)]);
    assert Next(c1, Terminate) == Step(c2, []);
    assert Next(c2, Status(InstanceStatus.Started)) == Step(c3, []);
    assert Run(c3, []) == Some(Step(c3, []));
    assert Run(c2, ts[1..][1..]) == Some(Step(c3, [] + []));
    assert Run(c1, ts[1..]) == Some(Step(c3, [] + ([] + [])));
    assert [DeployTask(ctx, spec)] + ([] + ([] + [])) == [DeployTask(ctx, spec)];
  }

  /**
   * `next` with the `PreTerminating` + `Started` arm sending the terminate RPC,
   * as the `Started` + `Terminate` arm does. Every other pair behaves as `Next`.
   * With it, every entry into `Terminating` sends a terminate RPC.
   */
  function NextIntended(ctx: StateCtx, t: Transition): (r: Step)
    requires Defined(ctx.state, t)
    ensures r.ctx == Next(ctx, t).ctx
    ensures !(ctx.state.PreTerminating? && t.Status? && t.status.Started?) ==> r == Next(ctx, t)
    ensures r.ctx.state.Terminating? && !ctx.state.Terminating? ==> r.effects == [TerminateTask(ctx)]
  {
    if ctx.state.PreTerminating? && t.Status? && t.status.Started? then
      Step(TransInto(ctx, Terminating(INITIAL_ATTEMPT)), [TerminateTask(ctx)])
    else
      Next(ctx, t)
  }
}
