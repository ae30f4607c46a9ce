/**
 * The worker manager's fleet directory (`ctl/src/worker_mgr.rs`): one entry
 * per live worker address, refreshed by metric pushes and reaped by the
 * liveness tick. `Instant` and `Duration` are naturals; the current time is a
 * parameter. The order in which a `HashMap` yields its entries is not
 * specified, so the operations that iterate over the directory take that order
 * as a parameter.
 */
module WorkerMgr {
  import opened Proto
  import Wrappers

  /** Host metrics pushed by a worker; the `f64` CPU figure is kept as a real. */
  datatype Metrics = Metrics(cpuUsage: real, memTotal: nat, memUsed: nat)

  /** `Metrics::default()`: all figures zero. */
  const DEFAULT_METRICS: Metrics := Metrics(0.0, 0, 0)

  datatype WorkerDetails = WorkerDetails(addr: IpAddr, metrics: Metrics, collectedAt: nat)

  type Directory = map<IpAddr, WorkerDetails>

  datatype HelloStatus = Ok | AlreadyRegistered

  datatype PushMetricsStatus = Ack | Removed

  /** Every entry is stored under its own address. */
  predicate Valid(dir: Directory)
  {
    forall a :: a in dir ==> dir[a].addr == a
  }

  /** `order` lists every registered address exactly once. */
  predicate IsIterationOrder(dir: Directory, order: seq<IpAddr>)
  {
    && (forall j, k :: 0 <= j < k < |order| ==> order[j] != order[k])
    && (forall a :: a in dir ==> a in order)
    && (forall j :: 0 <= j < |order| ==> order[j] in dir)
  }

  /** `handle_hello`: registers an unknown address; a known one is reported and left alone. */
  function HandleHello(dir: Directory, addr: IpAddr, now: nat): (r: (Directory, HelloStatus))
    ensures r.0.Keys == dir.Keys + {addr}
    ensures r.1 == Ok <==> addr !in dir
    ensures addr in dir ==> r.0 == dir
    ensures addr !in dir ==> r.0[addr] == WorkerDetails(addr, DEFAULT_METRICS, now)
    ensures forall a :: a in dir ==> r.0[a] == dir[a]
    ensures Valid(dir) ==> Valid(r.0)
  {
    if addr in dir then (dir, AlreadyRegistered)
    else (dir[addr := WorkerDetails(addr, DEFAULT_METRICS, now)], Ok)
  }

  /** `handle_bye`: removes the address if present; every other entry is kept as is. */
  function HandleBye(dir: Directory, addr: IpAddr): (r: Directory)
    ensures r.Keys == dir.Keys - {addr}
    ensures forall a :: a in r ==> r[a] == dir[a]
    ensures Valid(dir) ==> Valid(r)
  {
    dir - {addr}
  }

  /** `handle_push_metrics`: refreshes a known worker; an unknown one learns it was removed. */
  function HandlePushMetrics(dir: Directory, addr: IpAddr, metrics: Metrics, now: nat): (r: (Directory, PushMetricsStatus))
    ensures r.0.Keys == dir.Keys
    ensures r.1 == Ack <==> addr in dir
    ensures addr !in dir ==> r.0 == dir
    ensures addr in dir ==>
      r.0[addr].metrics == metrics && r.0[addr].collectedAt == now && r.0[addr].addr == dir[addr].addr
    ensures forall a :: a in dir && a != addr ==> r.0[a] == dir[a]
    ensures Valid(dir) ==> Valid(r.0)
  {
    if addr !in dir then (dir, Removed)
    else (dir[addr := dir[addr].(metrics := metrics, collectedAt := now)], Ack)
  }

  /** The `QueryWorkers` arm: a snapshot of every entry, in iteration order. */
  function QueryWorkers(dir: Directory, order: seq<IpAddr>): (r: seq<WorkerDetails>)
    requires IsIterationOrder(dir, order)
    ensures |r| == |dir|
    ensures forall w :: w in r <==> w in dir.Values
    ensures Valid(dir) ==> forall j, k :: 0 <= j < k < |r| ==> r[j].addr != r[k].addr
  {
    DistinctCard(order);
    assert (set a | a in order) == dir.Keys;
    var r := seq(|order|, j requires 0 <= j < |order| => dir[order[j]]);
    assert forall w :: w in dir.Values ==> w in r by {
      forall w | w in dir.Values
        ensures w in r
      {
        var a :| a in dir && dir[a] == w;
        var j :| 0 <= j < |order| && order[j] == a;
        assert r[j] == w;
      }
    }
    r
  }

  /** `Instant::checked_duration_since`: `None` when `earlier` is in fact later. */
  function CheckedDurationSince(later: nat, earlier: nat): Wrappers.Option<nat>
  {
    if earlier <= later then Wrappers.Some(later - earlier) else Wrappers.None
  }

  /**
   * `handle_tick`: the addresses to which a `Bye` is sent, in iteration order.
   * Exactly the workers whose last report is at least `livenessTimeout` before
   * `instant` are evicted; a report stamped after `instant` keeps its worker.
   */
  method HandleTick(dir: Directory, livenessTimeout: nat, instant: nat, order: seq<IpAddr>)
    returns (byes: seq<IpAddr>)
    requires Valid(dir) && IsIterationOrder(dir, order)
    ensures forall a :: a in byes <==> a in dir && dir[a].collectedAt + livenessTimeout <= instant
    ensures forall j, k :: 0 <= j < k < |byes| ==> byes[j] != byes[k]
  {
    byes := [];
    var j := 0;
    while j < |order|
      invariant 0 <= j <= |order|
      invariant forall a :: a in byes <==>
        a in order[..j] && dir[a].collectedAt + livenessTimeout <= instant
      invariant forall p, q :: 0 <= p < q < |byes| ==> byes[p] != byes[q]
    {
      var worker := dir[order[j]];
      assert order[..j + 1] == order[..j] + [order[j]];
      assert order[j] !in order[..j];
      match CheckedDurationSince(instant, worker.collectedAt) {
        case None =>
        case Some(elapsed) =>
          if elapsed >= livenessTimeout {
            byes := byes + [worker.addr];
          }
      }
      j := j + 1;
    }
    assert order[..j] == order;
  }

  /** Handling each scheduled `Bye` in turn. */
  function ByeAll(dir: Directory, byes: seq<IpAddr>): (r: Directory)
    ensures Valid(dir) ==> Valid(r)
    decreases |byes|
  {
    if |byes| == 0 then dir else ByeAll(HandleBye(dir, byes[0]), byes[1..])
  }

  /**
   * Once the `Bye`s of a tick are handled, the directory holds exactly the workers
   * that reported within the timeout, with their entries unchanged.
   */
  lemma {:induction false} TickEvictsStale(dir: Directory, byes: seq<IpAddr>, livenessTimeout: nat, instant: nat)
    requires forall a :: a in byes <==> a in dir && dir[a].collectedAt + livenessTimeout <= instant
    ensures var live := ByeAll(dir, byes);
      && (forall a :: a in live <==> a in dir && instant < dir[a].collectedAt + livenessTimeout)
      && (forall a :: a in live ==> live[a] == dir[a])
  {
    ByeAllRemoves(dir, byes);
  }

  lemma {:induction false} ByeAllRemoves(dir: Directory, byes: seq<IpAddr>)
    ensures ByeAll(dir, byes) == map a | a in dir && a !in byes :: dir[a]
    decreases |byes|
  {
    if |byes| > 0 {
      ByeAllRemoves(HandleBye(dir, byes[0]), byes[1..]);
      assert forall a :: a in byes <==> a == byes[0] || a in byes[1..];
    }
  }

  /** Saying hello twice registers the worker once; the second call only reports it. */
  lemma HelloTwice(dir: Directory, addr: IpAddr, now1: nat, now2: nat)
    requires addr !in dir
    ensures var (d1, s1) := HandleHello(dir, addr, now1);
      var (d2, s2) := HandleHello(d1, addr, now2);
      s1 == Ok && s2 == AlreadyRegistered && d2 == d1 && |d2| == |dir| + 1
  {
  }

  lemma {:induction false} DistinctCard<T>(xs: seq<T>)
    requires forall j, k :: 0 <= j < k < |xs| ==> xs[j] != xs[k]
    ensures |set x | x in xs| == |xs|
  {
    if |xs| > 0 {
      var init := xs[..|xs| - 1];
      DistinctCard(init);
      assert (set x | x in xs) == (set x | x in init) + {xs[|xs| - 1]};
    }
  }
}
