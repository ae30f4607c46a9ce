/**
 * Types the controller shares with the rest of the system (the `proto` crate):
 * identifiers, specifications, instance status reports and the constants of
 * `well_known.rs`.
 */
module Proto {

  /** Rust's `u8`, used for retry counters; `+ 1` on it must be shown not to overflow. */
  newtype u8 = x: int | 0 <= x < 0x100

  /** Rust's `u32`, used for the requested instance count. */
  newtype u32 = x: int | 0 <= x < 0x1_0000_0000

  const MAX_INSTANCE_DEPLOY_RETRIES: u8 := 5
  const MAX_INSTANCE_TERMINATION_RETRIES: u8 := 5

  /** A worker's IP address; the model never inspects its structure. */
  datatype IpAddr = IpAddr(raw: nat)

  /** A UUIDv7 naming one instance. */
  datatype InstanceId = InstanceId(uuid: nat)

  /** A UUIDv7 naming one deploy-service invocation. */
  datatype DeploymentId = DeploymentId(uuid: nat)

  /** The service domain, the key of the balancer's map. */
  datatype ServiceId = ServiceId(name: string)

  datatype ServiceSpec = ServiceSpec(
    id: string,
    image: string,
    exposePorts: seq<nat>,
    public: bool,
    concurrency: u32)

  datatype InstanceSpec = InstanceSpec(instanceId: InstanceId, image: string, public: bool)

  /** The spec of one instance of `spec`, as `InstanceSpec::from_service_spec_cloned` builds it. */
  function InstanceSpecFrom(spec: ServiceSpec, id: InstanceId): InstanceSpec
  {
    InstanceSpec(id, spec.image, spec.public)
  }

  /** An opaque error value (`eyre::Report`); only its message is kept. */
  datatype Report = Report(message: string)

  /** What a worker reports about one of its instances (`instance::Status`). */
  datatype InstanceStatus =
    | Started
    | Terminated
    | Crashed(error: string)
    | Killed(reason: string)
    | FailedToStart(error: string)
}
