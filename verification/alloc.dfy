/**
 * Worker allocation (`ctl/src/deployer/alloc.rs`). The random choice of a
 * worker and the UUIDv7 generator are oracles passed in as parameters:
 * `choices[j]` is the pool index the random source picks for the `j`-th
 * instance, and `ids[j]` is the identifier generated for it.
 */
module Alloc {
  import opened Proto
  import WorkerMgr

  predicate Distinct<T(==)>(xs: seq<T>)
  {
    forall j, k :: 0 <= j < k < |xs| ==> xs[j] != xs[k]
  }

  /** Every pick of the random source is an index into the pool. */
  predicate IsChoiceOf(workers: seq<WorkerMgr.WorkerDetails>, choices: seq<nat>)
  {
    forall j :: 0 <= j < |choices| ==> choices[j] < |workers|
  }

  /** The addresses of a worker pool. */
  function AddrsOf(workers: seq<WorkerMgr.WorkerDetails>): set<IpAddr>
  {
    set j | 0 <= j < |workers| :: workers[j].addr
  }

  /** The instance identifiers of an allocation, in order. */
  function IdsOf(pairs: seq<(InstanceId, IpAddr)>): (r: seq<InstanceId>)
    ensures |r| == |pairs| && forall j :: 0 <= j < |pairs| ==> r[j] == pairs[j].0
  {
    seq(|pairs|, j requires 0 <= j < |pairs| => pairs[j].0)
  }

  lemma IdsOfCons(pairs: seq<(InstanceId, IpAddr)>)
    requires |pairs| > 0
    ensures IdsOf(pairs) == [pairs[0].0] + IdsOf(pairs[1..])
  {
  }

  /**
   * `rand_many`: `instances` pairs, the `j`-th one made of the `j`-th fresh id and
   * the address of the worker the random source picked. Asking for instances
   * from an empty pool is the `unwrap` panic, hence the first precondition.
   */
  function RandMany(workers: seq<WorkerMgr.WorkerDetails>, instances: u32, choices: seq<nat>, ids: seq<InstanceId>)
    : (r: seq<(InstanceId, IpAddr)>)
    requires |workers| > 0 || instances == 0
    requires |choices| == instances as int && IsChoiceOf(workers, choices)
    requires |ids| == instances as int
    ensures |r| == instances as int
    ensures IdsOf(r) == ids
    ensures forall j :: 0 <= j < |r| ==> r[j].1 == workers[choices[j]].addr
    ensures forall j :: 0 <= j < |r| ==> r[j].1 in AddrsOf(workers)
    ensures Distinct(ids) ==> Distinct(IdsOf(r))
  {
    seq(instances as int, j requires 0 <= j < instances as int => (ids[j], workers[choices[j]].addr))
  }

  /** `_rand_single`: one fresh id bound to a worker of a non-empty pool. */
  function RandSingle(workers: seq<WorkerMgr.WorkerDetails>, choice: nat, id: InstanceId): (r: (InstanceId, IpAddr))
    requires |workers| > 0 && choice < |workers|
    ensures r.0 == id
    ensures r.1 == workers[choice].addr && r.1 in AddrsOf(workers)
  {
    RandMany(workers, 1, [choice], [id])[0]
  }

  /**
   * With the same random picks and the same generated ids, a single allocation is
   * the first pair a larger one yields.
   */
  lemma RandSingleIsFirstOfMany(
    workers: seq<WorkerMgr.WorkerDetails>, instances: u32, choices: seq<nat>, ids: seq<InstanceId>)
    requires instances > 0 && |workers| > 0
    requires |choices| == instances as int && IsChoiceOf(workers, choices)
    requires |ids| == instances as int
    ensures RandSingle(workers, choices[0], ids[0]) == RandMany(workers, instances, choices, ids)[0]
  {
    var many := RandMany(workers, instances, choices, ids);
    assert IdsOf(many)[0] == ids[0];
  }
}
