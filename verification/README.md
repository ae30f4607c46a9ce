# Tucano controller core, in Dafny

This project models the sequential core of the Tucano controller and proves
properties of it. It covers five parts.

- **Instance state machine** (`Instance`). This is the lifecycle each deployed
  instance goes through: `Init`, `Deploying`, `Started`, `Terminating` and the
  terminal states. Deploy and terminate retries are bounded. Scheduled RPC
  tasks are returned as `Effect` values. A (state, transition) pair the
  controller panics on is excluded by the `Defined` precondition.
- **Deployer bookkeeping** (`Deployer`, `Alloc`). This is the map from
  instance id to state context. It covers how a service deployment allocates
  instances to workers and starts each state machine, and how a transition is
  applied and a terminal context dropped.
- **Worker manager** (`WorkerMgr`). This is the directory of live workers,
  keyed by address. It covers hello, bye, metric pushes, queries and the
  liveness tick.
- **Balancer** (`Balancer`). These are the per-service instance bags and the
  round-robin choice of the next instance.
- **Helpers** (`Http`, `NumberFact`). These are the HTTP error combinators of
  the `utils` crate, and the trial-division factoriser with the `/factors`
  handler of the Go `number-fact` test container.

Some inputs come from outside the controller: the random source, the UUIDv7
generator, the clock and the order in which a `HashMap` yields its entries.
They are all parameters. Each operation's contract holds for every choice of
them that meets two assumptions, stated as preconditions: generated instance
ids are pairwise distinct and not yet tracked, and an iteration order lists
every key of the map exactly once. `Proto` holds the shared identifiers and the retry constants.
`Wrappers` holds `Option` and `Result`. `Arith` holds a few
nonlinear-arithmetic facts.

## Model

| member | source | states |
|---|---|---|
| Instance.Kind | ctl/src/deployer/instance.rs:179-198 | `Terminated` is the only successful terminal state; `Init`, `Deploying`, `PreTerminating`, `Started` and `Terminating` are the non-terminal ones; the other six are unsuccessful terminals |
| Instance.NewInit | ctl/src/deployer/instance.rs:134-141 | a new context carries the given id, worker and deployment, is non-terminal, and accepts exactly the `Deploy` transition (any other would panic) |
| Instance.DeployTask | ctl/src/deployer/instance.rs:229-238 | the deploy RPC goes to the instance's own worker with the given spec, and its failure comes back to this instance as `FailedToDeploy` |
| Instance.TerminateTask | ctl/src/deployer/instance.rs:259-269 | the terminate RPC goes to the instance's own worker, and its failure comes back to this instance as `FailedToTerminate` |
| Instance.ScheduledFailuresAreHandled | ctl/src/deployer/instance.rs:229-286 | whenever a transition schedules a task, the state it leaves behind accepts that task's failure rather than panicking |
| Instance.DeploymentReattempt | ctl/src/deployer/instance.rs:240-257 | while `attempt <= 5` the result is `Deploying{attempt+1}` with the same spec and one deploy task; otherwise it is `FailedToStart` with no task |
| Instance.TerminationReattempt | ctl/src/deployer/instance.rs:271-286 | while `attempt <= 5` the result is `Terminating{attempt+1}` with one terminate task; otherwise it is `FailedToTerminate` with no task |
| Instance.Next | ctl/src/deployer/instance.rs:26-122 | every defined transition keeps the instance's identity and schedules at most one task, addressed to its own worker; it keeps both retry counters in `1..=6` (so the `u8` `attempt + 1` never overflows) and strictly lowers the number of transitions the instance can still take |
| Instance.Run | ctl/src/deployer/instance.rs:26-122 | a sequence of transitions that never panics keeps the identity, schedules at most one task per transition, and is no longer than the starting state's rank |
| Instance.InitDeploy | ctl/src/deployer/instance.rs:32-38 | `Init` + `Deploy{spec}` gives `Deploying{1, spec}` and exactly one deploy task to the context's worker |
| Instance.DeployRetry | ctl/src/deployer/instance.rs:40-48 | a `FailedToDeploy` or `FailedToStart` report while deploying retries with the same spec while `attempt <= 5`, and gives up in `FailedToStart` after |
| Instance.TerminateRetry | ctl/src/deployer/instance.rs:100-103 | a failed terminate RPC retries while `attempt <= 5`, and ends in `FailedToTerminate` after |
| Instance.LifecycleEdges | ctl/src/deployer/instance.rs:50-98 | `Deploying`+`Started` gives `Started`; `Deploying`+`Terminate` gives `PreTerminating`; `PreTerminating` + a deploy failure gives `NeverStarted`; `PreTerminating`+`Started` gives `Terminating{1}` with no task; `Started`+`Terminate` gives `Terminating{1}` with one terminate task |
| Instance.StatusReports | ctl/src/deployer/instance.rs:78-118 | in `Started`, `Terminated` gives `UnexpectedTerminated` and `Crashed`/`Killed` give `UnexpectedCrashed`; in `Terminating` they give `Terminated` and `Crashed`; no task is scheduled; the result is a successful terminal exactly for `Terminating`+`Terminated` |
| Instance.TerminalIsAbsorbing | ctl/src/deployer/instance.rs:120 | from a terminal state the only run that does not panic is the empty one |
| Instance.LifecycleIsBounded | ctl/src/deployer/instance.rs:26-122 | whatever transitions arrive, an instance takes at most 14 of them from `Init` before `next` would panic |
| Instance.DeployFailures | ctl/src/deployer/instance.rs:240-257 | a stream of deploy failures from `Deploying{a}` walks the counter up to 6 with one task per failure, then ends in `FailedToStart` with no task for the last failure |
| Instance.DeployExhaustion | ctl/src/deployer/instance.rs:246-255 | `Deploy` followed by 6 failures ends in `FailedToStart` after exactly 6 deploy tasks, and any further transition panics |
| Instance.TerminateFailures | ctl/src/deployer/instance.rs:271-286 | the same walk for termination, ending in `FailedToTerminate` |
| Instance.RunAppend | ctl/src/deployer/instance.rs:26-122 | running `ts + more` is running `ts`, then `more` from where `ts` stopped, with the tasks concatenated |
| Instance.TerminateBeforeStartSendsNoTerminate | ctl/src/deployer/instance.rs:60-65 | as written: `Deploy`, `Terminate`, then `Started` ends in `Terminating{1}` having scheduled only the deploy task, so no terminate RPC is ever sent |
| Instance.NextIntended | ctl/src/deployer/instance.rs:60-65 | corrected arm: `PreTerminating` + `Started` also sends the terminate RPC; every other pair behaves as `Next`; every entry into `Terminating` then schedules exactly one terminate task |
| Deployer.AddInstanceInitState | ctl/src/deployer/mod.rs:142-150 | a fresh id gets an `Init` context on the given worker under the given deployment; every other entry is kept; the map invariant is preserved |
| Deployer.TransInstanceState | ctl/src/deployer/mod.rs:152-167 | an unknown id changes nothing and schedules nothing; a known id stays in the map exactly when `next` leaves it non-terminal, mapped to `next`'s context; no other entry changes; the invariant (key is the id, state non-terminal, counters in bounds) is preserved |
| Deployer.DeployOne | ctl/src/deployer/mod.rs:120-125 | inserting `Init` then firing `Deploy` leaves the instance in `Deploying{1}` on its worker, with exactly one deploy task |
| Deployer.DeployEach | ctl/src/deployer/mod.rs:118-126 | across all allocated pairs, each new id ends in `Deploying{1}` on its allocated worker; earlier entries are untouched; one deploy task per pair is scheduled, in allocation order |
| Deployer.CollectDistinct | ctl/src/deployer/mod.rs:118-131 | with distinct ids, the collected reply map has one entry per pair, each mapping to that pair's address |
| Deployer.HandleDeployService | ctl/src/deployer/mod.rs:112-132 | the reply carries the given deployment id and maps exactly the `spec.concurrency` fresh ids, each to the address of the worker chosen for it; the map and the tasks are as `DeployEach` states; the invariant is preserved |
| Deployer.TerminateServiceStopsNothing | ctl/src/deployer/mod.rs:134-136 | terminating a just-deployed service is acknowledged with `Ok(())` (mod.rs line 101) but stops nothing: every instance of the deployment is still tracked and still deploying on its first attempt, and only deploy tasks were scheduled |
| Deployer.DeployThenStarted | ctl/src/deployer/mod.rs:112-167 | after a deployment, a `Started` report for one of its instances moves it to `Started` on its allocated worker, schedules nothing and leaves every other entry alone |
| Alloc.RandMany | ctl/src/deployer/alloc.rs:13-22 | exactly `n` pairs, the `j`-th holding the `j`-th generated id and the address of the chosen pool worker; distinct ids stay distinct; an empty pool is allowed only for `n = 0` |
| Alloc.RandSingle | ctl/src/deployer/alloc.rs:25-27 | one pair holding the generated id and the address of the worker the random source picked |
| Alloc.RandSingleIsFirstOfMany | ctl/src/deployer/alloc.rs:25-27 | with the same random picks and generated ids, the single allocation is the first pair of a larger one |
| WorkerMgr.HandleHello | ctl/src/worker_mgr.rs:84-101 | an unknown address is inserted with default metrics stamped `now` and the reply is `Ok`; a known one leaves the directory unchanged and the reply is `AlreadyRegistered` |
| WorkerMgr.HandleBye | ctl/src/worker_mgr.rs:104-110 | the address is removed if present; every other entry is kept |
| WorkerMgr.HandlePushMetrics | ctl/src/worker_mgr.rs:113-121 | a known worker gets the new metrics stamped `now` and `Ack`; an unknown one gets `Removed` and nothing changes |
| WorkerMgr.QueryWorkers | ctl/src/worker_mgr.rs:73-76 | the reply lists exactly the directory's entries, one per worker |
| WorkerMgr.HandleTick | ctl/src/worker_mgr.rs:123-139 | a `Bye` is scheduled, once, for exactly the workers with `collected_at <= instant` and `instant - collected_at >= liveness_timeout`; a report stamped after `instant` keeps its worker |
| WorkerMgr.TickEvictsStale | ctl/src/worker_mgr.rs:123-139 | once a tick's `Bye`s are handled, the directory holds exactly the workers that reported within the timeout, unchanged |
| WorkerMgr.HelloTwice | ctl/src/worker_mgr.rs:84-101 | a second hello reports `AlreadyRegistered` and the worker is registered once |
| Balancer.AddInstance | ctl/src/balancer.rs:76-80 | the endpoint is appended to the end of the service's bag, which starts empty with counter 0 for a new service; duplicates are kept and no other bag changes |
| Balancer.Retain | ctl/src/balancer.rs:90 | the result holds exactly the endpoints whose id differs |
| Balancer.RetainConcat | ctl/src/balancer.rs:90 | retaining works piecewise, so the kept endpoints keep their order |
| Balancer.RetainIdempotent | ctl/src/balancer.rs:83-91 | dropping the same instance twice is dropping it once |
| Balancer.DropInstance | ctl/src/balancer.rs:83-91 | every endpoint of the instance leaves a known service's bag and the counter is kept, even if the bag becomes empty; an unknown service changes nothing; no other bag changes |
| Balancer.Next | ctl/src/balancer.rs:62-67 | an unknown service yields `None` and changes nothing; a known bag must be non-empty (the modulus panics otherwise, see Findings), and then yields one of its endpoints and its counter goes up by exactly one; no other bag changes |
| Balancer.NextChecked | ctl/src/balancer.rs:62-67 | corrected `next`: `None`, with nothing changed, exactly for an unknown service or an empty bag; otherwise the same pick and counter step as `next` |
| Balancer.NextNVisits | ctl/src/balancer.rs:62-67 | `n` calls pick the endpoints at positions `(count + j) mod len` and advance the counter by `n` |
| Balancer.WindowIsRotation | ctl/src/balancer.rs:65-66 | any `len` consecutive picks are the bag rotated to where the counter points, so each position is visited exactly once |
| Balancer.RoundRobinFairness | ctl/src/balancer.rs:65-66 | `k * len` consecutive positions hold each endpoint `k` times per occurrence in the bag |
| Balancer.BalancerIsFair | ctl/src/balancer.rs:62-67 | `k * len` calls to `next` on an unchanged bag return each endpoint `k` times per occurrence |
| Balancer.AddThenDrop | ctl/src/balancer.rs:76-91 | adding an endpoint and then dropping its instance is dropping the instance alone; for a new service it leaves an empty bag behind |
| Balancer.AddedIsPicked | ctl/src/balancer.rs:62-80 | once added, an endpoint is picked within one round of `len` calls to `next` on its service |
| Balancer.DropCanEmptyBag | ctl/src/balancer.rs:83-91 | as written: dropping the only instance of a service keeps the service with an empty bag |
| Balancer.LockedNext | ctl/src/balancer.rs:62-67 | as written, lock included: a poisoned mutex makes the call panic; on a known empty bag the counter is bumped, then the modulus panics while the guard is held, poisoning the mutex with the bumped counter and every other bag unchanged; otherwise it behaves as `next` |
| Balancer.LockedAdd | ctl/src/balancer.rs:76-80 | `add_instance` with its lock: it panics exactly when the mutex is poisoned, and otherwise adds the endpoint as `AddInstance` states |
| Balancer.LockedDrop | ctl/src/balancer.rs:83-91 | `drop_instance` with its lock: it panics exactly when the mutex is poisoned, and otherwise drops as `DropInstance` states |
| Balancer.EmptiedBagPoisonsBalancer | ctl/src/balancer.rs:62-91 | as written: add, drop, then `next` on one service panics and poisons the mutex, after which `next`, `add_instance` and `drop_instance` panic for every service |
| Balancer.LockedNextChecked | ctl/src/balancer.rs:62-67 | corrected `next` with its lock: on an unpoisoned mutex it always returns and leaves the mutex unpoisoned |
| Balancer.EmptiedBagWithCheckedNext | ctl/src/balancer.rs:62-91 | corrected: the same add, drop, `next` sequence yields `None`, and the balancer keeps serving every service |
| Http.PublicResponse | utils/src/http.rs:20-23 | an error built with `public` reaches the client with its status and message, and the report logged for a server error carries that same message |
| Http.PublicWithResponse | utils/src/http.rs:27-37 | an error built with `public_with` reaches the client with its status and message, not the inner report; the inner report is logged exactly when the status is at least 500 |
| Http.ErrorBody | utils/src/http.rs:46-50 | a client reading `error.message` from the body gets the message back |
| Http.IntoResponse | utils/src/http.rs:40-58 | the response uses the public status and message, or 500 and `"internal error"`; the inner report is logged exactly when the status is at least 500 |
| Http.HttpError | utils/src/http.rs:76-84 | `Ok` passes through unchanged; `Err(e)` becomes an error with the given public status and message and inner `e` |
| Http.HttpErrorResponse | utils/src/http.rs:76-84 | a failure tagged with `http_error` reaches the client with the chosen status and message instead of its own text, and is logged exactly when the status is at least 500 |
| Http.OrHttpError | utils/src/http.rs:95-106 | `Some(v)` becomes `Ok(v)`; `None` becomes an error with the given public status and message |
| Http.MissingValueResponse | utils/src/http.rs:40-58 | a missing value reaches the client with the chosen status and message, and is logged only for a server error |
| Http.InternalErrorResponse | utils/src/http.rs:60-65 | an error converted from a plain report is a logged 500 that hides its detail |
| NumberFact.TrialDivision | tests/containers/number-fact/main.go:19-44 | for `n >= 1`, the factors are primes in non-decreasing order whose product is `n`; `n = 1` gives none; a negative `n` gives only its factors 2 |
| NumberFact.DivideOut | tests/containers/number-fact/main.go:32-35 | dividing `p` out until it no longer divides appends copies of `p` and keeps `product * n` constant |
| NumberFact.ParseFormat | tests/containers/number-fact/main.go:67-68 | parsing the decimal text a number prints as gives the number back |
| NumberFact.ParseAcceptsExactly | tests/containers/number-fact/main.go:67-72 | a value is accepted exactly when it is an optional sign followed by one or more decimal digits and nothing else; everything else gets 400 "Invalid" |
| NumberFact.ParseValue | tests/containers/number-fact/main.go:67-68 | a sign and digits parse to the digits' value, negated after `-` |
| NumberFact.DecodeFormatAll | tests/containers/number-fact/main.go:81-84 | reading back the factor strings of the response gives the factors |
| NumberFact.FactorHandler | tests/containers/number-fact/main.go:60-99 | as written: an empty value gives 400 "Missing"; a non-decimal one gives 400 "Invalid"; `0` always times out (408); any parsed number whose factoring loses the race with the timer times out; when it finishes in time, `n >= 1` gets its prime factorisation and a negative `n` gets only its factors 2; every factor is written as `big.Int.String` writes it (no sign, no leading zeros) |
| NumberFact.NegativeAnswerIsNotAFactorisation | tests/containers/number-fact/main.go:19-44 | for a negative number the answer does not multiply back to it |
| NumberFact.MinusTwelveAnswer | tests/containers/number-fact-go/main.go:15-40 | `number=-12` is parsed as -12 and answered `["2", "2"]`, whose product is 4 |
| NumberFact.ValidatedFactorHandler | tests/containers/number-fact-go/main.go:56-68 | corrected handler: a number below 1 gets 400 at once; a factor list comes back exactly when the number is at least 1 and the factoring finishes in time, and it is that number's prime factorisation, each factor written as `big.Int.String` writes it; 408 only for a number at least 1 whose factoring is too slow |

## Left out

- The deployer's and worker manager's mailboxes, `select!` loops, `JoinSet`, oneshot replies and handles (ctl/src/deployer/mod.rs:70-91, 176-223; ctl/src/worker_mgr.rs:46-59, 142-176). Each handler is modelled as one sequential step.
- The tick sends its `Bye`s to itself through a bounded channel (ctl/src/worker_mgr.rs:137). This is modelled as handling the returned list in order (`WorkerMgr.ByeAll`).
- `handle_msg` is only a dispatch to the handlers, so it has no member of its own.
- Contention on the balancer's mutex and the relaxed ordering of its atomic counter are concurrency concerns. The mutex is modelled only for what a panic under it leaves behind: poisoning (`Balancer.LockedNext`).
- Balancer.Next: the counter is an unbounded natural. `usize` wrap-around after 2^64 calls is not modelled.
- Balancer.Next: on a known bag that `drop_instance` has emptied, `next` computes `count % 0` (ctl/src/balancer.rs:66) and panics. `Balancer.Next` requires a known bag to be non-empty; the panic and the poisoned mutex it leaves are modelled by `Balancer.LockedNext` (see Findings).
- The balancer's `proxy` and `extract_service_id` rewrite URIs and forward over HTTP. That is I/O.
- Randomness, UUIDv7 generation, `Instant::now()` and `HashMap` iteration order become parameters. The contracts hold for every value of them that meets the two assumptions below.
- UUIDv7 ids are assumed unique: `Deployer.HandleDeployService`, `Deployer.TerminateServiceStopsNothing` and `Deployer.DeployThenStarted` require the generated ids to be pairwise distinct and not already tracked. The `assert!` in `add_instance_init_state` (ctl/src/deployer/mod.rs:145-149) relies on the same fact; a collision would panic there, and that panic is not modelled.
- `HashMap` iteration is assumed to list each key exactly once: `WorkerMgr.QueryWorkers` and `WorkerMgr.HandleTick` require `IsIterationOrder` of their `order` parameter.
- Alloc.RandMany: when instances are requested from an empty pool, the code panics in `unwrap` (ctl/src/deployer/alloc.rs:20), inside the deployer actor. The model requires a non-empty pool whenever `concurrency > 0`, for `Alloc.RandMany` and `Deployer.HandleDeployService`.
- `instance::Status` is not part of this model. Its variants are taken from their uses in ctl/src/deployer/instance.rs: `Started`, `Terminated`, `Crashed`, `Killed` and `FailedToStart`.
- `InstanceSpec::from_service_spec_cloned` is not part of this model. It is taken to copy the image and the public flag and to set the instance id (`Proto.InstanceSpecFrom`).
- `Metrics::default` is not part of this model. It is taken to be all zeros. The `f64` CPU figure is kept as a `real`, without floating-point rounding.
- The Go container's SHA-256 digest, JSON encoding and shutdown handling are left out.
- NumberFact.FactorHandler: whether the factoring returns before the 200-second timer (tests/containers/number-fact/main.go:96-97) is the parameter `finishedInTime`. Which inputs are slow enough to lose the race (a large prime such as 2^127 - 1 needs about 4·10^18 odd candidates) is not modelled. After a 408 the goroutine stays blocked on the unbuffered channel (main.go:74-77), or for `0` keeps looping; that leak is not modelled. For `0` the loop appends to the factor list on every turn, so the process may run out of memory before the timer fires; memory exhaustion is not modelled either.
- Deployer.HandleTerminateService: the handler does nothing in this snapshot (ctl/src/deployer/mod.rs:134-136), and the model follows it; `Deployer.TerminateServiceStopsNothing` states the consequence.
- tests/containers/number-fact-go/main.go has the same `trialDivision` and handler checks as the number-fact copy. One model covers both.
- The worker-side proxy, the HTTP clients, metric collection, the CLI and the wire types are I/O adapters and are not modelled.

## Findings

| source | as written | input that shows it | evidently intended | confidence | as-written member | corrected member |
|---|---|---|---|---|---|---|
| tests/containers/number-fact/main.go:67-76 (same in tests/containers/number-fact-go/main.go:63-72) | the handler accepts any integer `SetString` parses, including zero and negatives, and factors it | `number=0` never leaves the loop that strips 2s: the list it builds grows on every turn until the 408 at 200 s (or until memory runs out), and the goroutine is never released; `number=-12` is answered `["2","2"]`, which multiplies to 4 | reject numbers below 1 with 400, like other invalid input | not executed | NumberFact.FactorHandler (with NumberFact.NegativeAnswerIsNotAFactorisation, NumberFact.MinusTwelveAnswer) | NumberFact.ValidatedFactorHandler |
| ctl/src/balancer.rs:62-67 (with ctl/src/balancer.rs:83-91) | `drop_instance` can leave a known service with an empty bag; `next` on it computes `count % 0` and panics while holding the mutex guard, which poisons the mutex | `add_instance(s, i, a)`, `drop_instance(s, i)`, `next(s)`: the call panics, and every later `next`, `add_instance` and `drop_instance` panics in `lock().unwrap()`, for every service | `next` on an empty bag returns `None`, as for an unknown service | not executed | Balancer.LockedNext (with Balancer.DropCanEmptyBag, Balancer.EmptiedBagPoisonsBalancer) | Balancer.NextChecked (with Balancer.LockedNextChecked, Balancer.EmptiedBagWithCheckedNext) |
| ctl/src/deployer/instance.rs:60-65 | an instance asked to terminate before it started moves from `PreTerminating` to `Terminating{1}` when it starts, but no terminate RPC is scheduled (the arm is marked TODO) | `Deploy`, `Terminate`, `Status(Started)`: the instance ends in `Terminating{1}` with only the deploy task ever scheduled, so it keeps running, and with no RPC in flight no `FailedToTerminate` can come back | schedule the terminate RPC, as the `Started` + `Terminate` arm does (instance.rs:93-98) | not executed | Instance.TerminateBeforeStartSendsNoTerminate (with Instance.LifecycleEdges) | Instance.NextIntended |
