/**
 * The balancer's per-service instance bags (`ctl/src/balancer.rs`) and its
 * round-robin selection. The mutex and the atomic counter are not modelled:
 * every operation is one sequential step, and the counter is an unbounded
 * natural.
 */
module Balancer {
  import opened Proto
  import opened Wrappers
  import Arith

  type Endpoint = (InstanceId, IpAddr)

  /** `InstanceBag`: the service's endpoints in insertion order and the selection counter. */
  datatype InstanceBag = InstanceBag(instances: seq<Endpoint>, count: nat)

  type Bags = map<ServiceId, InstanceBag>

  /** The bag `add_instance` starts from: `InstanceBag::default()` when the service is new. */
  function BagOf(bags: Bags, service: ServiceId): InstanceBag
  {
    if service in bags then bags[service] else InstanceBag([], 0)
  }

  /** `add_instance`: appends the endpoint at the end of the service's bag, duplicates included. */
  function AddInstance(bags: Bags, service: ServiceId, id: InstanceId, addr: IpAddr): (r: Bags)
    ensures r.Keys == bags.Keys + {service}
    ensures r[service].instances == BagOf(bags, service).instances + [(id, addr)]
    ensures r[service].count == BagOf(bags, service).count
    ensures forall s :: s in bags && s != service ==> r[s] == bags[s]
  {
    var bag := BagOf(bags, service);
    bags[service := bag.(instances := bag.instances + [(id, addr)])]
  }

  /** `Vec::retain` keeping the endpoints whose instance is not `id`. */
  function Retain(xs: seq<Endpoint>, id: InstanceId): (r: seq<Endpoint>)
    ensures |r| <= |xs|
    ensures forall e :: e in r <==> e in xs && e.0 != id
    decreases |xs|
  {
    if |xs| == 0 then []
    else if xs[0].0 == id then Retain(xs[1..], id)
    else [xs[0]] + Retain(xs[1..], id)
  }

  /** `Retain` works piecewise, so the kept endpoints stay in their original order. */
  lemma {:induction false} RetainConcat(xs: seq<Endpoint>, ys: seq<Endpoint>, id: InstanceId)
    ensures Retain(xs + ys, id) == Retain(xs, id) + Retain(ys, id)
    decreases |xs|
  {
    if |xs| == 0 {
      assert xs + ys == ys;
    } else {
      assert (xs + ys)[1..] == xs[1..] + ys;
      RetainConcat(xs[1..], ys, id);
    }
  }

  /** Keeping what has no `id` changes nothing, so dropping twice is dropping once. */
  lemma {:induction false} RetainIdempotent(xs: seq<Endpoint>, id: InstanceId)
    ensures Retain(Retain(xs, id), id) == Retain(xs, id)
    decreases |xs|
  {
    if |xs| > 0 {
      RetainIdempotent(xs[1..], id);
      if xs[0].0 != id {
        assert ([xs[0]] + Retain(xs[1..], id))[1..] == Retain(xs[1..], id);
      }
    }
  }

  /**
   * `drop_instance`: removes every endpoint of the instance from a known service's
   * bag and keeps the counter, even if the bag becomes empty. An unknown service
   * is left alone.
   */
  function DropInstance(bags: Bags, service: ServiceId, id: InstanceId): (r: Bags)
    ensures service !in bags ==> r == bags
    ensures r.Keys == bags.Keys
    ensures service in bags ==>
      r[service].instances == Retain(bags[service].instances, id) &&
      r[service].count == bags[service].count
    ensures service in bags ==> forall e :: e in r[service].instances ==> e.0 != id
    ensures forall s :: s in bags && s != service ==> r[s] == bags[s]
  {
    if service !in bags then bags
    else
      var bag := bags[service];
      bags[service := bag.(instances := Retain(bag.instances, id))]
  }

  /**
   * `BalancerState::next`: `None` for an unknown service; otherwise the endpoint at
   * `count mod len` and the counter one higher. A known but empty bag divides by
   * zero, so it is excluded.
   */
  function Next(bags: Bags, service: ServiceId): (r: (Bags, Option<Endpoint>))
    requires service in bags ==> |bags[service].instances| > 0
    ensures service !in bags ==> r == (bags, None)
    ensures service in bags ==> r.1.Some? && r.1.value in bags[service].instances
    ensures r.0.Keys == bags.Keys
    ensures service in bags ==>
      r.0[service].instances == bags[service].instances &&
      r.0[service].count == bags[service].count + 1
    ensures forall s :: s in bags && s != service ==> r.0[s] == bags[s]
  {
    if service !in bags then (bags, None)
    else
      var bag := bags[service];
      var pick := bag.instances[bag.count % |bag.instances|];
      (bags[service := bag.(count := bag.count + 1)], Some(pick))
  }

  /**
   * `next` with the emptiness check the modulus needs: an empty bag yields `None`
   * and nothing changes, like an unknown service. On a non-empty bag it is `Next`.
   */
  function NextChecked(bags: Bags, service: ServiceId): (r: (Bags, Option<Endpoint>))
    ensures r.1.None? <==> service !in bags || |bags[service].instances| == 0
    ensures r.1.None? ==> r.0 == bags
    ensures r.1.Some? ==> r == Next(bags, service)
  {
    if service !in bags || |bags[service].instances| == 0 then (bags, None)
    else Next(bags, service)
  }

  /** `n` consecutive `next` calls on one service: the final bags and the endpoints picked. */
  function NextN(bags: Bags, service: ServiceId, n: nat): (r: (Bags, seq<Endpoint>))
    requires service in bags && |bags[service].instances| > 0
    ensures service in r.0 && r.0[service].instances == bags[service].instances
    ensures |r.1| == n
    decreases n
  {
    if n == 0 then (bags, [])
    else
      var (b1, pick) := NextChecked(bags, service);
      var (b2, picks) := NextN(b1, service, n - 1);
      (b2, [pick.value] + picks)
  }

  /** The endpoints round robin visits from counter `c`: the `j`-th is at `(c + j) mod len`. */
  function Visits(c: nat, xs: seq<Endpoint>, n: nat): (r: seq<Endpoint>)
    requires |xs| > 0
    ensures |r| == n
  {
    seq(n, j requires 0 <= j < n => xs[(c + j) % |xs|])
  }

  /**
   * `n` calls pick the endpoints `Visits` lists, advance this service's counter by
   * `n` and touch no other service.
   */
  lemma {:induction false} NextNVisits(bags: Bags, service: ServiceId, n: nat)
    requires service in bags && |bags[service].instances| > 0
    ensures var (b, picks) := NextN(bags, service, n);
      && picks == Visits(bags[service].count, bags[service].instances, n)
      && b == bags[service := bags[service].(count := bags[service].count + n)]
    decreases n
  {
    if n > 0 {
      var bag := bags[service];
      var (b1, pick) := NextChecked(bags, service);
      NextNVisits(b1, service, n - 1);
      VisitsCons(bag.count, bag.instances, n);
      assert b1[service := b1[service].(count := b1[service].count + (n - 1))]
          == bags[service := bag.(count := bag.count + n)];
    }
  }

  /** The first visit is where the counter points; the rest start one further on. */
  lemma VisitsCons(c: nat, xs: seq<Endpoint>, n: nat)
    requires |xs| > 0 && n > 0
    ensures Visits(c, xs, n) == [xs[c % |xs|]] + Visits(c + 1, xs, n - 1)
  {
    forall j | 0 <= j < n
      ensures Visits(c, xs, n)[j] == ([xs[c % |xs|]] + Visits(c + 1, xs, n - 1))[j]
    {
      if j > 0 {
        assert c + j == (c + 1) + (j - 1);
      }
    }
  }

  /**
   * Any `len` consecutive calls visit the bag once around, starting where the counter
   * points: every position exactly once.
   */
  lemma WindowIsRotation(c: nat, xs: seq<Endpoint>)
    requires |xs| > 0
    ensures var k := c % |xs|; Visits(c, xs, |xs|) == xs[k..] + xs[..k]
  {
    var len := |xs|;
    var k := c % len;
    forall j | 0 <= j < len
      ensures Visits(c, xs, len)[j] == (xs[k..] + xs[..k])[j]
    {
      RotationIndex(c, len, j);
    }
  }

  /** Where the `j`-th call of a window starting at counter `c` lands. */
  lemma RotationIndex(c: nat, len: nat, j: nat)
    requires len > 0 && j < len
    ensures j < len - c % len ==> (c + j) % len == c % len + j
    ensures j >= len - c % len ==> (c + j) % len == c % len + j - len
  {
    var q, k := c / len, c % len;
    assert c == q * len + k;
    if j < len - k {
      Arith.DivModUnique(c + j, len, q, k + j);
    } else {
      assert c + j == (q + 1) * len + (k + j - len);
      Arith.DivModUnique(c + j, len, q + 1, k + j - len);
    }
  }

  /**
   * Round-robin fairness: `k * len` consecutive calls on an unchanged bag return
   * every endpoint exactly `k` times as often as it occurs in the bag.
   */
  lemma {:induction false} RoundRobinFairness(c: nat, xs: seq<Endpoint>, k: nat)
    requires |xs| > 0
    ensures forall e :: multiset(Visits(c, xs, k * |xs|))[e] == k * multiset(xs)[e]
    decreases k
  {
    var len := |xs|;
    if k > 0 {
      RoundRobinFairness(c, xs, k - 1);
      var a := (k - 1) * len;
      Arith.MulSucc(k, len);
      VisitsSplit(c, xs, a, len);
      WindowKeepsMultiset(c + a, xs);
      var prev, win := Visits(c, xs, a), Visits(c + a, xs, len);
      assert multiset(Visits(c, xs, k * len)) == multiset(prev) + multiset(win);
      forall e
        ensures multiset(Visits(c, xs, k * len))[e] == k * multiset(xs)[e]
      {
        Arith.MulSucc(k, multiset(xs)[e]);
      }
    }
  }

  /** Visiting `a + b` endpoints is visiting `a`, then `b` more from where those stopped. */
  lemma VisitsSplit(c: nat, xs: seq<Endpoint>, a: nat, b: nat)
    requires |xs| > 0
    ensures Visits(c, xs, a + b) == Visits(c, xs, a) + Visits(c + a, xs, b)
  {
    var n := a + b;
    forall j | 0 <= j < n
      ensures Visits(c, xs, n)[j] == (Visits(c, xs, a) + Visits(c + a, xs, b))[j]
    {
      if j >= a {
        assert c + j == (c + a) + (j - a);
      }
    }
  }

  /** One window of `len` visits holds every endpoint as often as the bag does. */
  lemma WindowKeepsMultiset(c: nat, xs: seq<Endpoint>)
    requires |xs| > 0
    ensures multiset(Visits(c, xs, |xs|)) == multiset(xs)
  {
    var r := c % |xs|;
    WindowIsRotation(c, xs);
    assert xs == xs[..r] + xs[r..];
  }

  /**
   * Fairness of the balancer itself: `k * len` calls to `Next` on a service whose
   * bag does not change return each endpoint `k` times per occurrence in the bag.
   */
  lemma BalancerIsFair(bags: Bags, service: ServiceId, k: nat)
    requires service in bags && |bags[service].instances| > 0
    ensures var picks := NextN(bags, service, k * |bags[service].instances|).1;
      forall e :: multiset(picks)[e] == k * multiset(bags[service].instances)[e]
  {
    NextNVisits(bags, service, k * |bags[service].instances|);
    RoundRobinFairness(bags[service].count, bags[service].instances, k);
  }

  /** Adding an endpoint and then dropping its instance is dropping the instance alone. */
  lemma AddThenDrop(bags: Bags, service: ServiceId, id: InstanceId, addr: IpAddr)
    ensures service in bags ==>
      DropInstance(AddInstance(bags, service, id, addr), service, id) == DropInstance(bags, service, id)
    ensures service !in bags ==>
      DropInstance(AddInstance(bags, service, id, addr), service, id) == bags[service := InstanceBag([], 0)]
  {
    var xs := BagOf(bags, service).instances;
    RetainConcat(xs, [(id, addr)], id);
    assert Retain([(id, addr)], id) == [];
    assert Retain(xs + [(id, addr)], id) == Retain(xs, id);
    if service !in bags {
      assert xs == [];
    }
  }

  /** Once added, an endpoint is picked within one round of `next` calls on its service. */
  lemma AddedIsPicked(bags: Bags, service: ServiceId, id: InstanceId, addr: IpAddr)
    ensures var added := AddInstance(bags, service, id, addr);
      (id, addr) in NextN(added, service, |added[service].instances|).1
  {
    var added := AddInstance(bags, service, id, addr);
    var xs := added[service].instances;
    NextNVisits(added, service, |xs|);
    WindowKeepsMultiset(added[service].count, xs);
    assert (id, addr) in multiset(xs);
  }

  // ---------------------------------------------------------------------------
  // An emptied bag behind the mutex
  // ---------------------------------------------------------------------------

  /** Dropping the only instance of a service leaves its bag known but empty. */
  lemma DropCanEmptyBag(service: ServiceId, id: InstanceId, addr: IpAddr)
    ensures var b := DropInstance(AddInstance(map[], service, id, addr), service, id);
      service in b && b[service].instances == []
  {
    AddThenDrop(map[], service, id, addr);
  }

  /**
   * The bags behind the balancer's `Mutex`. `poisoned` records that a thread
   * panicked while holding the guard; from then on every `lock().unwrap()` panics.
   */
  datatype Locked = Locked(bags: Bags, poisoned: bool)

  /** The end of one call: it returned a value, or it panicked. */
  datatype Call<T> = Returned(state: Locked, value: T) | Panicked(state: Locked)

  /**
   * `BalancerState::next` as written, lock included: on a known empty bag the
   * counter is bumped, then the modulus panics while the guard is held, which
   * poisons the mutex with the bumped counter inside.
   */
  function LockedNext(st: Locked, service: ServiceId): (r: Call<Option<Endpoint>>)
    ensures st.poisoned ==> r == Panicked(st)
    ensures !st.poisoned && service in st.bags && |st.bags[service].instances| == 0 ==>
      && r.Panicked? && r.state.poisoned
      && r.state.bags.Keys == st.bags.Keys
      && r.state.bags[service] == InstanceBag([], st.bags[service].count + 1)
      && (forall other :: other in st.bags && other != service ==> r.state.bags[other] == st.bags[other])
    ensures !st.poisoned && (service !in st.bags || |st.bags[service].instances| > 0) ==>
      r == Returned(Locked(NextChecked(st.bags, service).0, false), NextChecked(st.bags, service).1)
  {
    if st.poisoned then Panicked(st)
    else if service in st.bags && |st.bags[service].instances| == 0 then
      var bag := st.bags[service];
      Panicked(Locked(st.bags[service := bag.(count := bag.count + 1)], true))
    else
      var (bags, pick) := Next(st.bags, service);
      Returned(Locked(bags, false), pick)
  }

  /** `BalancerHandle::add_instance`, lock included. */
  function LockedAdd(st: Locked, service: ServiceId, id: InstanceId, addr: IpAddr): (r: Call<()>)
    ensures st.poisoned <==> r.Panicked?
    ensures r.Returned? ==> r.state.bags == AddInstance(st.bags, service, id, addr)
  {
    if st.poisoned then Panicked(st)
    else Returned(Locked(AddInstance(st.bags, service, id, addr), false), ())
  }

  /** `BalancerHandle::drop_instance`, lock included. */
  function LockedDrop(st: Locked, service: ServiceId, id: InstanceId): (r: Call<()>)
    ensures st.poisoned <==> r.Panicked?
    ensures r.Returned? ==> r.state.bags == DropInstance(st.bags, service, id)
  {
    if st.poisoned then Panicked(st)
    else Returned(Locked(DropInstance(st.bags, service, id), false), ())
  }

  /**
   * Adding an instance, dropping it, then asking for the service's next endpoint
   * panics and poisons the mutex; after that every call, for every service,
   * panics.
   */
  lemma EmptiedBagPoisonsBalancer(
    service: ServiceId, id: InstanceId, addr: IpAddr,
    other: ServiceId, id2: InstanceId, addr2: IpAddr)
    ensures var s1 := LockedAdd(Locked(map[], false), service, id, addr).state;
      var s2 := LockedDrop(s1, service, id).state;
      var r := LockedNext(s2, service);
      && r.Panicked? && r.state.poisoned
      && LockedNext(r.state, other).Panicked?
      && LockedAdd(r.state, other, id2, addr2).Panicked?
      && LockedDrop(r.state, other, id2).Panicked?
  {
    DropCanEmptyBag(service, id, addr);
  }

  /**
   * `next` with the emptiness check, lock included: on an unpoisoned balancer it
   * always returns and leaves the mutex unpoisoned.
   */
  function LockedNextChecked(st: Locked, service: ServiceId): (r: Call<Option<Endpoint>>)
    ensures st.poisoned <==> r.Panicked?
    ensures r.Returned? ==> !r.state.poisoned && (r.state.bags, r.value) == NextChecked(st.bags, service)
  {
    if st.poisoned then Panicked(st)
    else
      var (bags, pick) := NextChecked(st.bags, service);
      Returned(Locked(bags, false), pick)
  }

  /**
   * The same add, drop, `next` sequence with the checked `next`: the emptied bag
   * yields `None`, and the balancer keeps serving every service.
   */
  lemma EmptiedBagWithCheckedNext(
    service: ServiceId, id: InstanceId, addr: IpAddr,
    other: ServiceId, id2: InstanceId, addr2: IpAddr)
    ensures var s1 := LockedAdd(Locked(map[], false), service, id, addr).state;
      var s2 := LockedDrop(s1, service, id).state;
      var r := LockedNextChecked(s2, service);
      && r == Returned(s2, None)
      && LockedNextChecked(r.state, other).Returned?
      && LockedAdd(r.state, other, id2, addr2).Returned?
      && LockedDrop(r.state, other, id2).Returned?
  {
    DropCanEmptyBag(service, id, addr);
  }
}
