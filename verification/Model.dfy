/** The value types that the probes, the roll watcher, the analyzer and the report share. */
module Wrappers {
  datatype Option<+T> = None | Some(value: T)
}

module Model {
  import opened Wrappers

  // Instants and spans are integer nanoseconds, the resolution of Go's time package.
  type Time = int
  type Duration = int

  const SECOND: Duration := 1_000_000_000

  const SCHEMA_VERSION := "harness/v1"

  // `Unrecognised` covers every other kind string a log line may carry: the analyzer ignores it.
  datatype EventKind =
    | NewConnAttemptOK
    | NewConnAttemptFail
    | ConnReset
    | ConnEOF
    | ConnKeepaliveOK
    | ConnReconnected
    | Unrecognised(name: string)

  datatype ConnEvent = ConnEvent(kind: EventKind, connId: string, node: string, ts: Time)

  datatype RollWindow = RollWindow(
    node: string, drainingAt: Time, graceExpiresAt: Time, readyAt: Option<Time>)

  datatype TriggerInfo = TriggerInfo(
    kind: string, acSatisfying: bool,
    chartVersionFrom: string, chartVersionTo: string,
    ztunnelTagFrom: string, ztunnelTagTo: string, warning: string)

  datatype Corroboration = Corroboration(appAConnReset: bool, note: string)

  datatype Reason =
    // ERROR class: the measurement cannot be trusted
    | TriggerPrereqMissing
    | NoRolloutObserved
    | HalfOpenWindow
    | DiedBeforeDrain
    // FAIL class: a real drop violated the accepted-harm bound
    | OverlappingNodeWindows
    | DropOnNonUpgradingNode
    | SameConnTwoWindows
    | PoolNotRecovered
    | RecoveryOverBound
    | NewConnFailure
  {
    predicate IsError() {
      TriggerPrereqMissing? || NoRolloutObserved? || HalfOpenWindow? || DiedBeforeDrain?
    }
  }

  // Fields the Go struct leaves at their zero value are "" and None here.
  datatype Anomaly = Anomaly(reason: Reason, connId: string, node: string, ts: Option<Time>)

  datatype Verdict = PASS | FAIL | ERROR

  datatype WindowJson = WindowJson(drainingAt: Time, graceExpiresAt: Time, readyAt: Option<Time>)

  datatype PerNodeAttribution = PerNodeAttribution(
    node: string, window: WindowJson, rawResets: nat, distinctConnsReset: nat,
    recovered: bool, recovery: Option<Duration>)

  datatype Result = Result(
    schemaVersion: string, verdict: Verdict, reason: Option<Reason>, trigger: TriggerInfo,
    newConnFailures: nat, existingConnRSTs: nat,
    affectedNodeWindows: nat, distinctNodesAffected: nat,
    recovery: Option<Duration>, recoveryBoundSeconds: int,
    perNodeAttribution: seq<PerNodeAttribution>,
    corroboration: Corroboration, anomalies: seq<Anomaly>)

  datatype Config = Config(
    recoveryBoundSeconds: int, graceSeconds: int, jitterTolerance: Duration,
    triggerFired: bool, triggerPrereqError: string,
    appACorroboration: Option<Corroboration>)

  datatype Input = Input(
    trigger: TriggerInfo, events: seq<ConnEvent>, windows: seq<RollWindow>, config: Config)
}
