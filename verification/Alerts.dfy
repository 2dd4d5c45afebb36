/** The OpenSearch alert state machine: how an upstream event inserts or updates an alert row,
    how people acknowledge and resolve alerts, and which notifications follow. */
module Alerts {
  import opened Outcomes
  import opened Masking

  const EVIDENCE_LIMIT: nat := 256 * 1024

  /** Seven days, in nanoseconds. */
  const SAMPLE_RETENTION: int := 604_800_000_000_000

  datatype State = Open | Acknowledged | Resolved | Errored

  datatype Severity = CRITICAL | HIGH | WARNING | LOW | INFO

  datatype Kind = AlertOpened | AlertRecovered

  datatype Event = Event(
    monitorId: string, monitorName: string, monitorType: string, triggerId: string, triggerName: string,
    severity: string, alertId: string, bucketKey: string, state: string,
    periodStart: string, periodEnd: string, hitCount: Option<int>, error: string,
    findingIds: seq<string>, documentIds: seq<string>, samples: seq<Value>, resultSummary: Value,
    occurredAt: Option<int>)

  datatype Receiver = Receiver(
    id: string, applicationId: string, serviceId: string, dashboardUrl: string, expectedMonitorTypes: seq<string>)

  /** What event processing depends on besides the event: the receiver, its application's masking
      rules, and the size of the JSON encoding of a piece of evidence. */
  datatype Context = Context(receiver: Receiver, rules: Rules, encodedSize: Value -> nat)

  /** One clock reading and one new identifier, taken when an event is applied. */
  datatype Stamp = Stamp(now: int, newId: string)

  /** What the upstream service calls the monitor, the trigger and the alert. */
  datatype External = External(
    monitorId: string, monitorName: string, monitorType: string, triggerId: string, triggerName: string,
    alertId: string, bucketKey: string)

  datatype Row = Row(
    id: string, state: State, upstream: string, severity: Severity, title: string, description: string,
    category: string, hitCount: Option<int>, evidence: Value, sampleExpiresAt: int, external: External,
    applicationId: string, serviceId: string, receiverId: string, dashboardUrl: string,
    firstTriggeredAt: int, lastTriggeredAt: int, lastReceivedAt: Option<int>, lastReconciledAt: Option<int>,
    acknowledgedAt: Option<int>, acknowledgedBy: string, resolvedAt: Option<int>, createdAt: int, updatedAt: int)

  datatype HistoryEntry = HistoryEntry(alertId: string, eventType: string, upstream: string, evidence: Value)

  datatype Request = Request(alertId: string, kind: Kind)

  /** The alert table by deduplication key, the alert history, the notification requests, and
      the alerts dispatched to Sahara, each at most once. */
  datatype Store = Store(
    alerts: map<string, Row>, history: seq<HistoryEntry>, requests: seq<Request>, dispatched: set<string>)

  const NEW_STORE := Store(map[], [], [], {})

  // ---------------------------------------------------------------- pure decisions

  function MapState(upstream: string): State {
    if upstream == "ACKNOWLEDGED" then Acknowledged
    else if upstream == "COMPLETED" || upstream == "DELETED" then Resolved
    else if upstream == "ERROR" then Errored
    else Open
  }

  function MapSeverity(value: string): Severity {
    if value == "1" || value == "CRITICAL" then CRITICAL
    else if value == "2" || value == "HIGH" then HIGH
    else if value == "3" || value == "WARNING" || value == "MEDIUM" then WARNING
    else if value == "4" || value == "LOW" then LOW
    else INFO
  }

  predicate ValidUpstream(upstream: string) {
    upstream in ["ACTIVE", "ACKNOWLEDGED", "COMPLETED", "DELETED", "ERROR"]
  }

  function DedupKey(receiver: Receiver, event: Event): string {
    "opensearch:" + receiver.id + ":" + event.monitorId + ":" + event.triggerId + ":" + event.alertId + ":" + event.bucketKey
  }

  /** The state an event gives an alert: an acknowledgement outlasts further bad news. */
  function NextState(previous: Option<State>, upstream: string): State {
    var state := MapState(upstream);
    if previous == Some(Acknowledged) && (state == Open || state == Errored) then Acknowledged else state
  }

  /** The notification requested when an event moves an alert from `previous` to `state`. */
  function NotificationFor(previous: Option<State>, state: State): Option<Kind> {
    if previous.None? then
      if state == Open || state == Errored then Some(AlertOpened) else None
    else if previous.value != state && (state == Open || state == Errored) && previous.value != Acknowledged then
      Some(AlertOpened)
    else if previous.value != state && state == Resolved then Some(AlertRecovered)
    else None
  }

  function RawEvidence(event: Event): Value {
    Object(map[
      "periodStart" := Leaf(Text(event.periodStart)), "periodEnd" := Leaf(Text(event.periodEnd)),
      "findingIds" := Leaf(Texts(event.findingIds)), "documentIds" := Leaf(Texts(event.documentIds)),
      "samples" := Rows(event.samples), "resultSummary" := event.resultSummary, "error" := Leaf(Text(event.error))])
  }

  /** What is stored: the masked evidence, or a stub when its encoding is too long. */
  function Evidence(event: Event, ctx: Context): Value {
    var masked := Mask(RawEvidence(event), "", ctx.rules);
    if ctx.encodedSize(masked) > EVIDENCE_LIMIT then
      Object(map["captureState" := Leaf(Text("TRUNCATED")), "error" := Leaf(Text(event.error))])
    else masked
  }

  function Title(event: Event): string {
    if event.triggerName != "" then event.triggerName
    else if event.monitorName != "" then event.monitorName
    else "OpenSearch alert"
  }

  function Inserted(event: Event, evidence: Value, receiver: Receiver, stamp: Stamp, reconciled: bool): Row {
    var occurred := Occurred(event, stamp);
    var state := NextState(None, event.state);
    Row(stamp.newId, state, event.state, MapSeverity(event.severity), Title(event),
        if event.error != "" then event.error else event.monitorName,
        if event.state == "ERROR" then "OPENSEARCH_MONITOR_ERROR" else "OPENSEARCH_ALERT",
        event.hitCount, evidence, occurred + SAMPLE_RETENTION,
        External(event.monitorId, event.monitorName, event.monitorType, event.triggerId, event.triggerName,
                 event.alertId, event.bucketKey),
        receiver.applicationId, receiver.serviceId, receiver.id, receiver.dashboardUrl,
        occurred, occurred, Some(occurred), if reconciled then Some(occurred) else None,
        None, "", if state == Resolved then Some(occurred) else None, occurred, occurred)
  }

  function Updated(row: Row, event: Event, evidence: Value, stamp: Stamp, reconciled: bool): Row {
    var occurred := Occurred(event, stamp);
    var state := NextState(Some(row.state), event.state);
    row.(state := state, upstream := event.state, severity := MapSeverity(event.severity),
         description := if event.error != "" then event.error else row.description,
         hitCount := event.hitCount, evidence := evidence,
         sampleExpiresAt := occurred + SAMPLE_RETENTION, lastTriggeredAt := occurred,
         lastReceivedAt := if reconciled then row.lastReceivedAt else Some(occurred),
         lastReconciledAt := if reconciled then Some(occurred) else row.lastReconciledAt,
         resolvedAt := if state == Resolved then Some(occurred) else None, updatedAt := occurred)
  }

  function Occurred(event: Event, stamp: Stamp): int {
    if event.occurredAt.Some? then event.occurredAt.value else stamp.now
  }

  function StateAt(store: Store, key: string): Option<State> {
    if key in store.alerts then Some(store.alerts[key].state) else None
  }

  /** The store after one event, applied as one step. */
  function ApplyEvent(store: Store, ctx: Context, event: Event, stamp: Stamp, reconciled: bool): Store {
    var key := DedupKey(ctx.receiver, event);
    var evidence := Evidence(event, ctx);
    var row := if key in store.alerts then Updated(store.alerts[key], event, evidence, stamp, reconciled)
               else Inserted(event, evidence, ctx.receiver, stamp, reconciled);
    var notice := NotificationFor(StateAt(store, key), row.state);
    Store(store.alerts[key := row],
          store.history + [HistoryEntry(row.id, "OPENSEARCH_" + event.state, event.state, evidence)],
          store.requests + (if notice.Some? then [Request(row.id, notice.value)] else []),
          store.dispatched + (if notice == Some(AlertOpened) then {row.id} else {}))
  }

  datatype AlertError = NotFound | ExternalResolve

  function AcknowledgedRow(row: Row, actor: string, now: int): Row {
    row.(state := Acknowledged, acknowledgedAt := Some(now), acknowledgedBy := actor, updatedAt := now)
  }

  function ResolvedRow(row: Row, now: int): Row {
    row.(state := Resolved, resolvedAt := Some(now), updatedAt := now)
  }

  function Acknowledge(store: Store, key: string, actor: string, now: int): Result<Store, AlertError> {
    if key !in store.alerts || store.alerts[key].state !in {Open, Errored} then Err(NotFound)
    else
      var row := AcknowledgedRow(store.alerts[key], actor, now);
      Ok(store.(alerts := store.alerts[key := row], history := store.history + [HistoryEntry(row.id, "ACKNOWLEDGED", "", Object(map[]))]))
  }

  function ResolvedBy(id: string, actor: string): HistoryEntry {
    HistoryEntry(id, "RESOLVED", "", Object(map["actor" := Leaf(Text(actor))]))
  }

  function Resolve(store: Store, key: string, actor: string, now: int): Result<Store, AlertError> {
    if key !in store.alerts then Err(NotFound)
    else if store.alerts[key].upstream in {"ACTIVE", "ACKNOWLEDGED"} then Err(ExternalResolve)
    else if store.alerts[key].state == Resolved then Err(NotFound)
    else
      var row := ResolvedRow(store.alerts[key], now);
      Ok(store.(alerts := store.alerts[key := row], history := store.history + [ResolvedBy(row.id, actor)]))
  }

  // ---------------------------------------------------------------- the service

  class Service {
    var alerts: map<string, Row>
    var history: seq<HistoryEntry>
    var requests: seq<Request>
    var dispatched: set<string>

    function Snapshot(): Store
      reads this
    {
      Store(alerts, history, requests, dispatched)
    }

    constructor ()
      ensures Snapshot() == NEW_STORE
    {
      alerts, history, requests, dispatched := map[], [], [], {};
    }

    method Apply(ctx: Context, event: Event, stamp: Stamp, reconciled: bool)
      modifies this
      ensures Snapshot() == ApplyEvent(old(Snapshot()), ctx, event, stamp, reconciled)
    {
      var key, evidence := DedupKey(ctx.receiver, event), Evidence(event, ctx);
      var isNew := key !in alerts;
      var previous: Option<State> := None;
      var row: Row;
      if isNew {
        row := Inserted(event, evidence, ctx.receiver, stamp, reconciled);
      } else {
        previous := Some(alerts[key].state);
        row := UpdateRow(alerts[key], event, evidence, stamp, reconciled);
      }
      alerts := alerts[key := row];
      history := history + [HistoryEntry(row.id, "OPENSEARCH_" + event.state, event.state, evidence)];
      Enqueue(row.id, previous, row.state, isNew);
    }

    method UpdateRow(existing: Row, event: Event, evidence: Value, stamp: Stamp, reconciled: bool) returns (row: Row)
      ensures row == Updated(existing, event, evidence, stamp, reconciled)
    {
      var occurred := stamp.now;
      if event.occurredAt.Some? { occurred := event.occurredAt.value; }
      var state := MapState(event.state);
      if existing.state == Acknowledged && (state == Open || state == Errored) {
        state := Acknowledged;
      }
      var description, received, reconciledAt := existing.description, existing.lastReceivedAt, existing.lastReconciledAt;
      if event.error != "" { description := event.error; }
      if reconciled { reconciledAt := Some(occurred); } else { received := Some(occurred); }
      row := existing.(
        state := state, upstream := event.state, severity := MapSeverity(event.severity), description := description,
        hitCount := event.hitCount, evidence := evidence,
        sampleExpiresAt := occurred + SAMPLE_RETENTION, lastTriggeredAt := occurred,
        lastReceivedAt := received, lastReconciledAt := reconciledAt,
        resolvedAt := if state == Resolved then Some(occurred) else None, updatedAt := occurred);
    }

    method Enqueue(alertId: string, previous: Option<State>, state: State, isNew: bool)
      requires isNew <==> previous.None?
      modifies this`requests, this`dispatched
      ensures var opens := (state == Open || state == Errored)
                           && (isNew || (previous != Some(state) && previous != Some(Acknowledged)));
              var recovers := state == Resolved && !isNew && previous != Some(Resolved);
              && requests == old(requests) + (if opens then [Request(alertId, AlertOpened)]
                                              else if recovers then [Request(alertId, AlertRecovered)] else [])
              && dispatched == old(dispatched) + (if opens then {alertId} else {})
    {
      assert previous.Some? ==>
               previous.value.Open? || previous.value.Acknowledged? || previous.value.Errored? || previous.value.Resolved?;
      if isNew && (state == Open || state == Errored) {
        requests := requests + [Request(alertId, AlertOpened)];
        dispatched := dispatched + {alertId};
      } else if !isNew && previous != Some(state) && (state == Open || state == Errored) && previous != Some(Acknowledged) {
        requests := requests + [Request(alertId, AlertOpened)];
        dispatched := dispatched + {alertId};
      } else if !isNew && previous != Some(state) && state == Resolved
                && previous in {Some(Open), Some(Acknowledged), Some(Errored)} {
        requests := requests + [Request(alertId, AlertRecovered)];
      }
    }

    method AcknowledgeAlert(key: string, actor: string, now: int) returns (r: Result<Row, AlertError>)
      modifies this
      ensures match Acknowledge(old(Snapshot()), key, actor, now)
              case Ok(after) => Snapshot() == after && r == Ok(after.alerts[key])
              case Err(e) => Snapshot() == old(Snapshot()) && r == Err(e)
      ensures r.Ok? <==> key in old(alerts) && (old(alerts)[key].state == Open || old(alerts)[key].state == Errored)
      ensures r.Err? ==> r.error == NotFound
      ensures r.Ok? ==>
                && r.value == old(alerts)[key].(state := Acknowledged, acknowledgedAt := Some(now), acknowledgedBy := actor, updatedAt := now)
                && alerts == old(alerts)[key := r.value]
                && history == old(history) + [HistoryEntry(r.value.id, "ACKNOWLEDGED", "", Object(map[]))]
                && requests == old(requests) && dispatched == old(dispatched)
    {
      if key !in alerts || (alerts[key].state != Open && alerts[key].state != Errored) { return Err(NotFound); }
      alerts := alerts[key := alerts[key].(state := Acknowledged, acknowledgedAt := Some(now),
                                           acknowledgedBy := actor, updatedAt := now)];
      history := history + [HistoryEntry(alerts[key].id, "ACKNOWLEDGED", "", Object(map[]))];
      r := Ok(alerts[key]);
    }

    method ResolveAlert(key: string, actor: string, now: int) returns (r: Result<Row, AlertError>)
      modifies this
      ensures match Resolve(old(Snapshot()), key, actor, now)
              case Ok(after) => Snapshot() == after && r == Ok(after.alerts[key])
              case Err(e) => Snapshot() == old(Snapshot()) && r == Err(e)
      ensures r == Err(ExternalResolve) <==> key in old(alerts) && (old(alerts)[key].upstream == "ACTIVE" || old(alerts)[key].upstream == "ACKNOWLEDGED")
      ensures r.Ok? <==> key in old(alerts) && old(alerts)[key].state != Resolved
                         && old(alerts)[key].upstream != "ACTIVE" && old(alerts)[key].upstream != "ACKNOWLEDGED"
      ensures r.Ok? ==>
                && r.value == old(alerts)[key].(state := Resolved, resolvedAt := Some(now), updatedAt := now)
                && alerts == old(alerts)[key := r.value]
                && history == old(history) + [HistoryEntry(r.value.id, "RESOLVED", "", Object(map["actor" := Leaf(Text(actor))]))]
                && requests == old(requests) && dispatched == old(dispatched)
    {
      if key !in alerts { return Err(NotFound); }
      var current := alerts[key];
      if current.upstream == "ACTIVE" || current.upstream == "ACKNOWLEDGED" { return Err(ExternalResolve); }
      if current.state == Resolved { return Err(NotFound); }
      alerts := alerts[key := current.(state := Resolved, resolvedAt := Some(now), updatedAt := now)];
      history := history + [ResolvedBy(alerts[key].id, actor)];
      r := Ok(alerts[key]);
    }
  }
}
