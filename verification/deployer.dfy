/**
 * The deployer's bookkeeping (`ctl/src/deployer/mod.rs`): the map from
 * instance id to state context, and the handlers that change it. Each handler
 * is a pure transformer of that map that also returns the background tasks it
 * scheduled; the mailbox, the task set and the reply channels are not modelled.
 */
module Deployer {
  import opened Proto
  import opened Instance
  import opened Wrappers
  import Alloc
  import WorkerMgr

  /** `instance_statems`. */
  type Statems = map<InstanceId, StateCtx>

  /**
   * What holds between two messages: every context is stored under its own id,
   * is not terminal (terminal ones are dropped) and has its retry counters in bounds.
   */
  predicate Valid(m: Statems)
  {
    forall id :: id in m ==>
      m[id].id == id && Kind(m[id].state) == NonTerminal && WellFormed(m[id].state)
  }

  /** The map after a handler, and the tasks the handler scheduled, in order. */
  datatype Outcome = Outcome(statems: Statems, effects: seq<Effect>)

  /** The reply to a deploy-service request. */
  datatype DeployServiceRes = DeployServiceRes(deploymentId: DeploymentId, instances: map<InstanceId, IpAddr>)

  datatype DeployOutcome = DeployOutcome(statems: Statems, effects: seq<Effect>, res: DeployServiceRes)

  /**
   * `add_instance_init_state`: a fresh id gets an `Init` context on its worker.
   * An id already present fails the `assert!`, hence the precondition.
   */
  function AddInstanceInitState(m: Statems, id: InstanceId, workerAddr: IpAddr, d: DeploymentId): (r: Statems)
    requires id !in m
    ensures r.Keys == m.Keys + {id}
    ensures r[id].state == Init && r[id].id == id
    ensures r[id].workerAddr == workerAddr && r[id].deploymentId == d
    ensures forall k :: k in m ==> r[k] == m[k]
    ensures Valid(m) ==> Valid(r)
  {
    m[id := NewInit(id, workerAddr, d)]
  }

  /**
   * `trans_instance_state`: an unknown id is ignored; otherwise the context is
   * advanced by `next` and kept only while it is not terminal. No other entry changes.
   */
  function TransInstanceState(m: Statems, id: InstanceId, t: Transition): (r: Outcome)
    requires id in m ==> Defined(m[id].state, t)
    ensures id !in m ==> r == Outcome(m, [])
    ensures id in m ==> r.effects == Next(m[id], t).effects
    ensures id in r.statems <==> id in m && Kind(Next(m[id], t).ctx.state) == NonTerminal
    ensures id in r.statems ==> r.statems[id] == Next(m[id], t).ctx
    ensures forall k :: k != id ==> (k in r.statems <==> k in m)
    ensures forall k :: k != id && k in m ==> r.statems[k] == m[k]
    ensures Valid(m) ==> Valid(r.statems)
  {
    if id !in m then Outcome(m, [])
    else
      var statem := m[id];
      var rest := m - {id};
      var next := Next(statem, t);
      match Kind(next.ctx.state)
      case NonTerminal => Outcome(rest[id := next.ctx], next.effects)
      case SuccessfulTerminal => Outcome(rest, next.effects)
      case UnsuccessfulTerminal => Outcome(rest, next.effects)
  }

  /** The ids of `pairs` are pairwise distinct and none of them is already tracked. */
  predicate FreshIds(m: Statems, pairs: seq<(InstanceId, IpAddr)>)
  {
    && Alloc.Distinct(Alloc.IdsOf(pairs))
    && forall j :: 0 <= j < |pairs| ==> pairs[j].0 !in m
  }

  /** The context of an instance right after its first deploy was scheduled. */
  function FirstDeploying(spec: ServiceSpec, id: InstanceId, workerAddr: IpAddr, d: DeploymentId): StateCtx
  {
    StateCtx(Deploying(1, InstanceSpecFrom(spec, id)), id, workerAddr, d)
  }

  /**
   * The `inspect` closure of `handle_deploy_service` for one allocated pair: insert
   * the `Init` context, then fire `Deploy`. The instance ends up `Deploying` on its
   * first attempt with exactly one deploy task scheduled for it.
   */
  function DeployOne(m: Statems, id: InstanceId, workerAddr: IpAddr, spec: ServiceSpec, d: DeploymentId): (r: Outcome)
    requires id !in m
    ensures r.statems == m[id := FirstDeploying(spec, id, workerAddr, d)]
    ensures r.effects == [ScheduleDeploy(id, workerAddr, InstanceSpecFrom(spec, id))]
    ensures Valid(m) ==> Valid(r.statems)
  {
    var withInit := AddInstanceInitState(m, id, workerAddr, d);
    InitDeploy(withInit[id], InstanceSpecFrom(spec, id));
    var r := TransInstanceState(withInit, id, Deploy(InstanceSpecFrom(spec, id)));
    assert r.statems == m[id := FirstDeploying(spec, id, workerAddr, d)];
    r
  }

  /** `DeployOne` over every allocated pair, in order. */
  function DeployEach(m: Statems, pairs: seq<(InstanceId, IpAddr)>, spec: ServiceSpec, d: DeploymentId): (r: Outcome)
    requires FreshIds(m, pairs)
    ensures forall k :: k in r.statems <==> k in m || k in Alloc.IdsOf(pairs)
    ensures forall k :: k in m ==> r.statems[k] == m[k]
    ensures forall j :: 0 <= j < |pairs| ==>
      r.statems[pairs[j].0] == FirstDeploying(spec, pairs[j].0, pairs[j].1, d)
    ensures |r.effects| == |pairs|
    ensures forall j :: 0 <= j < |pairs| ==>
      r.effects[j] == ScheduleDeploy(pairs[j].0, pairs[j].1, InstanceSpecFrom(spec, pairs[j].0))
    ensures Valid(m) ==> Valid(r.statems)
    decreases |pairs|
  {
    if |pairs| == 0 then Outcome(m, [])
    else
      var first := DeployOne(m, pairs[0].0, pairs[0].1, spec, d);
      DropFirstFresh(m, pairs, first.statems);
      var rest := DeployEach(first.statems, pairs[1..], spec, d);
      DeployedAfterFirst(m, pairs, spec, d, first.statems, rest.statems);
      ScheduledAfterFirst(pairs, spec, first.effects, rest.effects);
      Outcome(rest.statems, first.effects + rest.effects)
  }

  /** The map after the first pair and then the others holds every pair's first deploy. */
  lemma DeployedAfterFirst(
    m: Statems, pairs: seq<(InstanceId, IpAddr)>, spec: ServiceSpec, d: DeploymentId,
    first: Statems, rest: Statems)
    requires FreshIds(m, pairs) && |pairs| > 0
    requires first == m[pairs[0].0 := FirstDeploying(spec, pairs[0].0, pairs[0].1, d)]
    requires forall k :: k in rest <==> k in first || k in Alloc.IdsOf(pairs[1..])
    requires forall k :: k in first ==> rest[k] == first[k]
    requires forall j :: 0 <= j < |pairs[1..]| ==>
      pairs[1..][j].0 in rest && rest[pairs[1..][j].0] == FirstDeploying(spec, pairs[1..][j].0, pairs[1..][j].1, d)
    ensures forall k :: k in rest <==> k in m || k in Alloc.IdsOf(pairs)
    ensures forall k :: k in m ==> rest[k] == m[k]
    ensures forall j :: 0 <= j < |pairs| ==>
      rest[pairs[j].0] == FirstDeploying(spec, pairs[j].0, pairs[j].1, d)
  {
    Alloc.IdsOfCons(pairs);
    forall j | 1 <= j < |pairs|
      ensures rest[pairs[j].0] == FirstDeploying(spec, pairs[j].0, pairs[j].1, d)
    {
      assert pairs[j] == pairs[1..][j - 1];
    }
  }

  /** The first pair's deploy task, then the others', is one deploy task per pair in order. */
  lemma ScheduledAfterFirst(
    pairs: seq<(InstanceId, IpAddr)>, spec: ServiceSpec, first: seq<Effect>, rest: seq<Effect>)
    requires |pairs| > 0
    requires first == [ScheduleDeploy(pairs[0].0, pairs[0].1, InstanceSpecFrom(spec, pairs[0].0))]
    requires |rest| == |pairs[1..]|
    requires forall j :: 0 <= j < |pairs[1..]| ==>
      rest[j] == ScheduleDeploy(pairs[1..][j].0, pairs[1..][j].1, InstanceSpecFrom(spec, pairs[1..][j].0))
    ensures |first + rest| == |pairs|
    ensures forall j :: 0 <= j < |pairs| ==>
      (first + rest)[j] == ScheduleDeploy(pairs[j].0, pairs[j].1, InstanceSpecFrom(spec, pairs[j].0))
  {
    forall j | 1 <= j < |pairs|
      ensures (first + rest)[j] == ScheduleDeploy(pairs[j].0, pairs[j].1, InstanceSpecFrom(spec, pairs[j].0))
    {
      assert pairs[j] == pairs[1..][j - 1];
    }
  }

  /** The pairs after the first stay fresh once the first id has been inserted. */
  lemma DropFirstFresh(m: Statems, pairs: seq<(InstanceId, IpAddr)>, m': Statems)
    requires FreshIds(m, pairs) && |pairs| > 0
    requires forall k :: k in m' <==> k in m || k == pairs[0].0
    ensures FreshIds(m', pairs[1..])
  {
    assert Alloc.IdsOf(pairs[1..]) == Alloc.IdsOf(pairs)[1..];
    forall j | 0 <= j < |pairs[1..]|
      ensures pairs[1..][j].0 !in m'
    {
      assert Alloc.IdsOf(pairs)[0] != Alloc.IdsOf(pairs)[j + 1];
    }
  }

  /** Collecting the allocated pairs into a map, as `HashMap::from_iter` does: a later pair wins. */
  function CollectInstances(pairs: seq<(InstanceId, IpAddr)>): (r: map<InstanceId, IpAddr>)
    ensures forall k :: k in r <==> k in Alloc.IdsOf(pairs)
    decreases |pairs|
  {
    if |pairs| == 0 then map[]
    else
      var init := pairs[..|pairs| - 1];
      var last := pairs[|pairs| - 1];
      assert Alloc.IdsOf(pairs) == Alloc.IdsOf(init) + [last.0];
      CollectInstances(init)[last.0 := last.1]
  }

  /** With distinct ids nothing is overwritten: one entry per pair, each with its own address. */
  lemma {:induction false} CollectDistinct(pairs: seq<(InstanceId, IpAddr)>)
    requires Alloc.Distinct(Alloc.IdsOf(pairs))
    ensures |CollectInstances(pairs)| == |pairs|
    ensures forall j :: 0 <= j < |pairs| ==> CollectInstances(pairs)[pairs[j].0] == pairs[j].1
    decreases |pairs|
  {
    if |pairs| > 0 {
      var init := pairs[..|pairs| - 1];
      var last := pairs[|pairs| - 1];
      LastIdIsNew(pairs);
      CollectDistinct(init);
      var prefix := CollectInstances(init);
      assert last.0 !in prefix;
      var all := prefix[last.0 := last.1];
      assert CollectInstances(pairs) == all;
      assert |all| == |prefix| + 1;
      forall j | 0 <= j < |pairs|
        ensures all[pairs[j].0] == pairs[j].1
      {
        if j < |init| {
          assert init[j] == pairs[j] && pairs[j].0 != last.0;
        }
      }
    }
  }

  /** With distinct ids, the pairs before the last have distinct ids, none of them the last's. */
  lemma LastIdIsNew(pairs: seq<(InstanceId, IpAddr)>)
    requires |pairs| > 0 && Alloc.Distinct(Alloc.IdsOf(pairs))
    ensures Alloc.Distinct(Alloc.IdsOf(pairs[..|pairs| - 1]))
    ensures pairs[|pairs| - 1].0 !in Alloc.IdsOf(pairs[..|pairs| - 1])
    ensures forall j :: 0 <= j < |pairs| - 1 ==> pairs[j].0 != pairs[|pairs| - 1].0
  {
    var ids, n := Alloc.IdsOf(pairs), |pairs| - 1;
    assert Alloc.IdsOf(pairs[..n]) == ids[..n];
    forall j | 0 <= j < n
      ensures pairs[j].0 != pairs[n].0
    {
      assert ids[j] != ids[n];
    }
  }

  /** The reply maps exactly the allocated ids, each to the address of the worker chosen for it. */
  ghost predicate IsAllocation(
    instances: map<InstanceId, IpAddr>, workers: seq<WorkerMgr.WorkerDetails>,
    choices: seq<nat>, ids: seq<InstanceId>)
    requires |choices| == |ids| && Alloc.IsChoiceOf(workers, choices)
  {
    && |instances| == |ids|
    && (forall k :: k in instances <==> k in ids)
    && (forall j :: 0 <= j < |ids| ==> ids[j] in instances && instances[ids[j]] == workers[choices[j]].addr)
  }

  /**
   * The map and the tasks after a deployment of `ids`: each id is tracked right after
   * its first deploy was scheduled, on the worker `instances` names; the entries
   * tracked before are untouched; and one deploy task per id was scheduled, in
   * allocation order.
   */
  ghost predicate IsDeployment(
    m: Statems, spec: ServiceSpec, d: DeploymentId, ids: seq<InstanceId>,
    instances: map<InstanceId, IpAddr>, statems: Statems, effects: seq<Effect>)
  {
    && (forall k :: k in statems <==> k in m || k in ids)
    && (forall k :: k in m ==> statems[k] == m[k])
    && (forall j :: 0 <= j < |ids| ==>
          (ids[j] in instances && ids[j] in statems &&
           statems[ids[j]] == FirstDeploying(spec, ids[j], instances[ids[j]], d)))
    && |effects| == |ids|
    && (forall j :: 0 <= j < |ids| ==>
          (ids[j] in instances &&
           effects[j] == ScheduleDeploy(ids[j], instances[ids[j]], InstanceSpecFrom(spec, ids[j]))))
  }

  /**
   * `handle_deploy_service`: allocates `spec.concurrency` instances, starts each
   * one's state machine, and replies with the allocation under one deployment id.
   * `workers` is the pool the worker manager returned; `choices`, `ids` and `d` are
   * what the random source and the UUIDv7 generator produced.
   */
  function HandleDeployService(
    m: Statems, spec: ServiceSpec, workers: seq<WorkerMgr.WorkerDetails>,
    choices: seq<nat>, ids: seq<InstanceId>, d: DeploymentId): (r: DeployOutcome)
    requires |workers| > 0 || spec.concurrency == 0
    requires |choices| == spec.concurrency as int && Alloc.IsChoiceOf(workers, choices)
    requires |ids| == spec.concurrency as int && Alloc.Distinct(ids)
    requires forall j :: 0 <= j < |ids| ==> ids[j] !in m
    ensures r.res.deploymentId == d
    ensures IsAllocation(r.res.instances, workers, choices, ids)
    ensures IsDeployment(m, spec, d, ids, r.res.instances, r.statems, r.effects)
    ensures Valid(m) ==> Valid(r.statems)
  {
    var pairs := Alloc.RandMany(workers, spec.concurrency, choices, ids);
    var instances := CollectInstances(pairs);
    AllocatedPairsAreFresh(m, workers, choices, ids, pairs);
    var deployed := DeployEach(m, pairs, spec, d);
    CollectIsAllocation(pairs, workers, choices);
    DeployEachIsDeployment(m, pairs, spec, d, instances);
    DeployOutcome(deployed.statems, deployed.effects, DeployServiceRes(d, instances))
  }

  /** Pairs allocated for ids the map does not track carry fresh, distinct ids. */
  lemma AllocatedPairsAreFresh(
    m: Statems, workers: seq<WorkerMgr.WorkerDetails>, choices: seq<nat>, ids: seq<InstanceId>,
    pairs: seq<(InstanceId, IpAddr)>)
    requires Alloc.IdsOf(pairs) == ids && Alloc.Distinct(ids)
    requires forall j :: 0 <= j < |ids| ==> ids[j] !in m
    ensures FreshIds(m, pairs)
  {
    forall j | 0 <= j < |pairs|
      ensures pairs[j].0 !in m
    {
      assert pairs[j].0 == Alloc.IdsOf(pairs)[j];
    }
  }

  lemma CollectIsAllocation(
    pairs: seq<(InstanceId, IpAddr)>, workers: seq<WorkerMgr.WorkerDetails>, choices: seq<nat>)
    requires |choices| == |pairs| && Alloc.IsChoiceOf(workers, choices)
    requires Alloc.Distinct(Alloc.IdsOf(pairs))
    requires forall j :: 0 <= j < |pairs| ==> pairs[j].1 == workers[choices[j]].addr
    ensures IsAllocation(CollectInstances(pairs), workers, choices, Alloc.IdsOf(pairs))
  {
    CollectDistinct(pairs);
  }

  lemma DeployEachIsDeployment(
    m: Statems, pairs: seq<(InstanceId, IpAddr)>, spec: ServiceSpec, d: DeploymentId,
    instances: map<InstanceId, IpAddr>)
    requires FreshIds(m, pairs)
    requires forall j :: 0 <= j < |pairs| ==> pairs[j].0 in instances && instances[pairs[j].0] == pairs[j].1
    ensures var r := DeployEach(m, pairs, spec, d);
      IsDeployment(m, spec, d, Alloc.IdsOf(pairs), instances, r.statems, r.effects)
  {
    var r, ids := DeployEach(m, pairs, spec, d), Alloc.IdsOf(pairs);
    forall j | 0 <= j < |ids|
      ensures ids[j] in instances && ids[j] in r.statems
      ensures r.statems[ids[j]] == FirstDeploying(spec, ids[j], instances[ids[j]], d)
      ensures r.effects[j] == ScheduleDeploy(ids[j], instances[ids[j]], InstanceSpecFrom(spec, ids[j]))
    {
      assert ids[j] == pairs[j].0;
    }
  }

  /**
   * `handle_terminate_service` is a stub in this snapshot: it leaves every instance
   * as it is, and the actor replies `Ok(())`.
   */
  function HandleTerminateService(m: Statems, service: ServiceId): (r: (Statems, Result<(), Report>))
    ensures r.0 == m && r.1.Ok?
  {
    (m, Ok(()))
  }

  /**
   * Asking to terminate a service that was just deployed is acknowledged, yet
   * stops nothing: every instance of the deployment is still tracked, still
   * deploying on its first attempt, and no terminate task is scheduled for it.
   */
  lemma TerminateServiceStopsNothing(
    m: Statems, spec: ServiceSpec, workers: seq<WorkerMgr.WorkerDetails>,
    choices: seq<nat>, ids: seq<InstanceId>, d: DeploymentId)
    requires |workers| > 0 || spec.concurrency == 0
    requires |choices| == spec.concurrency as int && Alloc.IsChoiceOf(workers, choices)
    requires |ids| == spec.concurrency as int && Alloc.Distinct(ids)
    requires forall k :: 0 <= k < |ids| ==> ids[k] !in m
    ensures var deployed := HandleDeployService(m, spec, workers, choices, ids, d);
      var (after, reply) := HandleTerminateService(deployed.statems, ServiceId(spec.id));
      && reply.Ok?
      && (forall j :: 0 <= j < |ids| ==>
            ids[j] in after && Kind(after[ids[j]].state) == NonTerminal &&
            after[ids[j]].state == Deploying(INITIAL_ATTEMPT, InstanceSpecFrom(spec, ids[j])))
      && (forall e :: e in deployed.effects ==> e.ScheduleDeploy?)
  {
    var deployed := HandleDeployService(m, spec, workers, choices, ids, d);
    DeploymentIsDeploying(m, spec, d, ids, deployed.res.instances, deployed.statems, deployed.effects);
  }

  /** After a deployment every new instance is deploying on its first attempt, and only deploys were scheduled. */
  lemma DeploymentIsDeploying(
    m: Statems, spec: ServiceSpec, d: DeploymentId, ids: seq<InstanceId>,
    instances: map<InstanceId, IpAddr>, statems: Statems, effects: seq<Effect>)
    requires IsDeployment(m, spec, d, ids, instances, statems, effects)
    ensures forall j :: 0 <= j < |ids| ==>
      ids[j] in statems && Kind(statems[ids[j]].state) == NonTerminal &&
      statems[ids[j]].state == Deploying(INITIAL_ATTEMPT, InstanceSpecFrom(spec, ids[j]))
    ensures forall e :: e in effects ==> e.ScheduleDeploy?
  {
    forall e | e in effects
      ensures e.ScheduleDeploy?
    {
      var j :| 0 <= j < |effects| && effects[j] == e;
    }
  }

  /**
   * After a deployment, a `Started` report for one of its instances moves that
   * instance to `Started` on the worker it was allocated to, schedules nothing and
   * leaves every other instance alone.
   */
  lemma DeployThenStarted(
    m: Statems, spec: ServiceSpec, workers: seq<WorkerMgr.WorkerDetails>,
    choices: seq<nat>, ids: seq<InstanceId>, d: DeploymentId, j: nat)
    requires |workers| > 0 || spec.concurrency == 0
    requires |choices| == spec.concurrency as int && Alloc.IsChoiceOf(workers, choices)
    requires |ids| == spec.concurrency as int && Alloc.Distinct(ids)
    requires forall k :: 0 <= k < |ids| ==> ids[k] !in m
    requires j < |ids|
    ensures var deployed := HandleDeployService(m, spec, workers, choices, ids, d);
      var started := TransInstanceState(deployed.statems, ids[j], Status(InstanceStatus.Started));
      && started.statems[ids[j]] == StateCtx(State.Started, ids[j], workers[choices[j]].addr, d)
      && started.effects == []
      && (forall k :: k != ids[j] && k in deployed.statems ==> started.statems[k] == deployed.statems[k])
  {
    var deployed := HandleDeployService(m, spec, workers, choices, ids, d);
    var ctx := deployed.statems[ids[j]];
    assert ctx == FirstDeploying(spec, ids[j], workers[choices[j]].addr, d);
    LifecycleEdges(ctx, Status(InstanceStatus.Started));
  }
}
