/** What the row of an alert tells of the events it came from: its first event gives it its
    identity, its latest one what it says now. */
module AlertRows {
  import opened Outcomes
  import opened Masking
  import opened Alerts
  import opened AlertLifecycle

  /** The severities of OpenSearch, by number and by name. */
  lemma SeverityIs(value: string)
    ensures MapSeverity(value) == CRITICAL <==> value in ["1", "CRITICAL"]
    ensures MapSeverity(value) == HIGH <==> value in ["2", "HIGH"]
    ensures MapSeverity(value) == WARNING <==> value in ["3", "WARNING", "MEDIUM"]
    ensures MapSeverity(value) == LOW <==> value in ["4", "LOW"]
    ensures MapSeverity(value) == INFO <==> value !in ["1", "CRITICAL", "2", "HIGH", "3", "WARNING", "MEDIUM", "4", "LOW"]
  {
    assert "CRITICAL"[0] == 'C' && "HIGH"[0] == 'H' && "WARNING"[0] == 'W' && "MEDIUM"[0] == 'M' && "LOW"[0] == 'L';
    assert "1"[0] == '1' && "2"[0] == '2' && "3"[0] == '3' && "4"[0] == '4';
  }

  /** When an event happened: at the time it carries, or else when it is applied. */
  function When(op: Operation): int
    requires op.Receive?
  {
    match op.event.occurredAt case Some(t) => t case None => op.stamp.now
  }

  /** The row has its identity from this event. */
  predicate NamedBy(row: Row, op: Operation) {
    op.Receive? &&
    var e, r := op.event, op.ctx.receiver;
    && row.id == op.stamp.newId
    && row.title == (if e.triggerName != "" then e.triggerName else if e.monitorName != "" then e.monitorName else "OpenSearch alert")
    && row.category == (if e.state == "ERROR" then "OPENSEARCH_MONITOR_ERROR" else "OPENSEARCH_ALERT")
    && row.external == External(e.monitorId, e.monitorName, e.monitorType, e.triggerId, e.triggerName, e.alertId, e.bucketKey)
    && row.applicationId == r.applicationId && row.serviceId == r.serviceId
    && row.receiverId == r.id && row.dashboardUrl == r.dashboardUrl
    && row.firstTriggeredAt == When(op) && row.createdAt == When(op)
  }

  /** The row says what this event said. Samples expire after seven days. */
  predicate SaidBy(row: Row, op: Operation) {
    && op.Receive?
    && row.upstream == op.event.state
    && row.severity == MapSeverity(op.event.severity)
    && row.hitCount == op.event.hitCount
    && row.evidence == Evidence(op.event, op.ctx)
    && row.lastTriggeredAt == When(op)
    && row.sampleExpiresAt == When(op) + 7 * 24 * 3600 * 1_000_000_000
    && (if op.reconciled then row.lastReconciledAt == Some(When(op)) else row.lastReceivedAt == Some(When(op)))
  }

  /** The events for one alert among the operations of a run. */
  function EventsFor(ops: seq<Operation>, key: string): seq<Operation> {
    if ops == [] then []
    else if ops[0].Receive? && KeyOf(ops[0]) == key then [ops[0]] + EventsFor(ops[1..], key)
    else EventsFor(ops[1..], key)
  }

  ghost predicate Tells(store: Store, key: string, events: seq<Operation>) {
    && (key in store.alerts <==> events != [])
    && (events != [] ==> NamedBy(store.alerts[key], events[0]) && SaidBy(store.alerts[key], events[|events| - 1]))
  }

  lemma EventIsTold(store: Store, op: Operation, key: string, events: seq<Operation>)
    requires Tells(store, key, events) && op.Receive? && KeyOf(op) == key
    ensures Tells(After(store, op), key, events + [op])
  {
    var row := After(store, op).alerts[key];
    assert SaidBy(row, op);
    if events == [] {
      assert NamedBy(row, op);
    } else {
      assert NamedBy(row, events[0]);
    }
  }

  lemma OthersTellNothing(store: Store, op: Operation, key: string, events: seq<Operation>)
    requires Tells(store, key, events) && !(op.Receive? && KeyOf(op) == key)
    ensures Tells(After(store, op), key, events)
  {
    if key in store.alerts {
      var row, after := store.alerts[key], After(store, op).alerts[key];
      assert after == row.(state := after.state, acknowledgedAt := after.acknowledgedAt, acknowledgedBy := after.acknowledgedBy,
                           resolvedAt := after.resolvedAt, updatedAt := after.updatedAt);
    }
  }

  lemma {:induction false} RunIsTold(store: Store, ops: seq<Operation>, key: string, events: seq<Operation>)
    requires Tells(store, key, events)
    ensures Tells(AfterAll(store, ops), key, events + EventsFor(ops, key))
    decreases |ops|
  {
    if ops == [] {
      assert events + [] == events;
    } else if ops[0].Receive? && KeyOf(ops[0]) == key {
      EventIsTold(store, ops[0], key, events);
      RunIsTold(After(store, ops[0]), ops[1..], key, events + [ops[0]]);
      ConcatAssoc(events, [ops[0]], EventsFor(ops[1..], key));
    } else {
      OthersTellNothing(store, ops[0], key, events);
      RunIsTold(After(store, ops[0]), ops[1..], key, events);
    }
  }

  /** After any run from the empty store, through acknowledgements, resolutions and the events of
      other alerts, an alert has a row exactly if it had an event, its identity is that of its
      first event, and it says what its latest event said. */
  lemma RowTellsFirstAndLatest(ops: seq<Operation>, key: string)
    ensures Tells(AfterAll(NEW_STORE, ops), key, EventsFor(ops, key))
  {
    RunIsTold(NEW_STORE, ops, key, []);
    assert [] + EventsFor(ops, key) == EventsFor(ops, key);
  }

  /** One step at a time, the rest: the description changes only for an error text, every change
      is dated, an acknowledgement stays on record, and each effective operation leaves one
      history entry with what there is of evidence. */
  lemma EventStep(store: Store, op: Operation)
    requires op.Receive?
    ensures var key, e, evidence := KeyOf(op), op.event, Evidence(op.event, op.ctx);
            var after := After(store, op);
            && key in after.alerts
            && after.alerts[key].updatedAt == When(op)
            && after.alerts[key].resolvedAt == (if after.alerts[key].state == Resolved then Some(When(op)) else None)
            && (if op.reconciled
                then after.alerts[key].lastReceivedAt == if key in store.alerts then store.alerts[key].lastReceivedAt else Some(When(op))
                else after.alerts[key].lastReconciledAt == if key in store.alerts then store.alerts[key].lastReconciledAt else None)
            && after.history == store.history + [HistoryEntry(after.alerts[key].id, "OPENSEARCH_" + e.state, e.state, evidence)]
            && after.alerts[key].description ==
               (if e.error != "" then e.error else if key in store.alerts then store.alerts[key].description else e.monitorName)
            && (if key in store.alerts
                then after.alerts[key].acknowledgedAt == store.alerts[key].acknowledgedAt
                     && after.alerts[key].acknowledgedBy == store.alerts[key].acknowledgedBy
                     && after.alerts[key].title == store.alerts[key].title
                else after.alerts[key].acknowledgedAt == None && after.alerts[key].acknowledgedBy == "")
  {
  }

  /** The stored evidence is the masked one, or a stub that keeps the error text when the
      encoding is longer than 256 kilobytes. */
  lemma EvidenceIs(event: Event, ctx: Context)
    ensures var masked := Mask(RawEvidence(event), "", ctx.rules);
            Evidence(event, ctx) ==
            if ctx.encodedSize(masked) > 262144
            then Object(map["captureState" := Leaf(Text("TRUNCATED")), "error" := Leaf(Text(event.error))]) else masked
  {
  }
}
