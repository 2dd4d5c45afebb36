/** Properties of runs of the alert state machine. */
module AlertLifecycle {
  import opened Outcomes
  import opened Alerts

  // ---------------------------------------------------------------- whole-store runs

  datatype Operation =
    | Receive(ctx: Context, event: Event, stamp: Stamp, reconciled: bool)
    | AcknowledgeBy(key: string, actor: string, now: int)
    | ResolveBy(key: string, actor: string, now: int)

  /** Every event is validated before it is applied. */
  predicate Admissible(op: Operation) {
    op.Receive? ==> ValidUpstream(op.event.state)
  }

  function After(store: Store, op: Operation): Store {
    match op
    case Receive(ctx, event, stamp, reconciled) => ApplyEvent(store, ctx, event, stamp, reconciled)
    case AcknowledgeBy(key, actor, now) =>
      (match Acknowledge(store, key, actor, now) case Ok(s) => s case Err(_) => store)
    case ResolveBy(key, actor, now) =>
      (match Resolve(store, key, actor, now) case Ok(s) => s case Err(_) => store)
  }

  function AfterAll(store: Store, ops: seq<Operation>): Store
    decreases |ops|
  {
    if ops == [] then store else AfterAll(After(store, ops[0]), ops[1..])
  }

  /** What the state of a row says about the upstream state it last heard of, and when a
      resolution time is present. */
  ghost predicate Coherent(row: Row) {
    && (row.state == Open ==> row.upstream == "ACTIVE")
    && (row.state == Errored ==> row.upstream == "ERROR")
    && (row.state == Acknowledged ==> row.upstream in ["ACTIVE", "ACKNOWLEDGED", "ERROR"])
    && (row.state == Resolved ==> row.upstream in ["COMPLETED", "DELETED", "ERROR"])
    && (row.resolvedAt.Some? <==> row.state == Resolved)
  }

  ghost predicate CoherentStore(store: Store) {
    forall key | key in store.alerts :: Coherent(store.alerts[key])
  }

  lemma MapStateOf(upstream: string)
    requires ValidUpstream(upstream)
    ensures MapState(upstream) == Open <==> upstream == "ACTIVE"
    ensures MapState(upstream) == Errored <==> upstream == "ERROR"
    ensures MapState(upstream) == Acknowledged <==> upstream == "ACKNOWLEDGED"
    ensures MapState(upstream) == Resolved <==> upstream in ["COMPLETED", "DELETED"]
  {
    assert "ACTIVE"[1] == 'C' && "ACTIVE"[2] == 'T' && "ACKNOWLEDGED"[2] == 'K';
    assert "COMPLETED"[0] == 'C' && "DELETED"[0] == 'D' && "ERROR"[0] == 'E';
    assert "ACTIVE"[0] == 'A' && "ACKNOWLEDGED"[0] == 'A';
  }

  lemma StepKeepsCoherence(store: Store, op: Operation)
    requires CoherentStore(store) && Admissible(op)
    ensures CoherentStore(After(store, op))
  {
    if op.Receive? { MapStateOf(op.event.state); }
  }

  /** Lifecycle invariant: in every store reached by events, acknowledgements and resolutions,
      every row is coherent. */
  lemma {:induction false} LifecycleInvariant(store: Store, ops: seq<Operation>)
    requires CoherentStore(store) && forall op | op in ops :: Admissible(op)
    ensures CoherentStore(AfterAll(store, ops))
    decreases |ops|
  {
    if ops != [] {
      StepKeepsCoherence(store, ops[0]);
      LifecycleInvariant(After(store, ops[0]), ops[1..]);
    }
  }

  /** Sticky acknowledgement: no step takes an alert out of ACKNOWLEDGED except to RESOLVED,
      and no step removes a row or touches more than one. */
  lemma AcknowledgementSticks(store: Store, op: Operation, key: string)
    requires key in store.alerts
    ensures key in After(store, op).alerts
    ensures store.alerts[key].state == Acknowledged ==> After(store, op).alerts[key].state in {Acknowledged, Resolved}
    ensures After(store, op).alerts[key] != store.alerts[key] ==>
              forall other | other in store.alerts && other != key :: After(store, op).alerts[other] == store.alerts[other]
  {
  }

  /** By hand an alert can be resolved exactly when its monitor is in error and it is not
      resolved already: what is active upstream resolves upstream. */
  lemma ManualResolutionIffErrored(store: Store, key: string, actor: string, now: int)
    requires CoherentStore(store) && key in store.alerts
    ensures Resolve(store, key, actor, now).Ok? <==>
            store.alerts[key].state != Resolved && store.alerts[key].upstream == "ERROR"
  {
    assert "COMPLETED"[0] == 'C' && "DELETED"[0] == 'D' && "ERROR"[0] == 'E';
    assert "ACTIVE"[0] == 'A' && "ACKNOWLEDGED"[0] == 'A';
  }

  /** Receiving the same event again at once keeps the alert as it is, apart from the clock
      reading it may carry, and requests no notification. */
  lemma RepeatedEventIsQuiet(store: Store, ctx: Context, event: Event, stamp: Stamp, again: Stamp, reconciled: bool)
    ensures var once := ApplyEvent(store, ctx, event, stamp, reconciled);
            var twice := ApplyEvent(once, ctx, event, again, reconciled);
            var key := DedupKey(ctx.receiver, event);
            && twice.requests == once.requests
            && twice.alerts[key].state == once.alerts[key].state
            && (event.occurredAt.Some? ==> twice.alerts == once.alerts)
  {
    var once := ApplyEvent(store, ctx, event, stamp, reconciled);
    var twice := ApplyEvent(once, ctx, event, again, reconciled);
    var key := DedupKey(ctx.receiver, event);
    assert NextState(Some(once.alerts[key].state), event.state) == once.alerts[key].state;
    if event.occurredAt.Some? {
      assert twice.alerts[key] == once.alerts[key];
      assert twice.alerts == once.alerts;
    }
  }

  /** Values under hidden keys and dropped samples never reach the table: two events that differ
      only in those leave the same store behind. */
  lemma HiddenEvidenceLeavesNoTrace(store: Store, ctx: Context, event: Event, other: Event, stamp: Stamp, reconciled: bool)
    requires other == event.(samples := other.samples, resultSummary := other.resultSummary)
    requires Masking.Indistinguishable(RawEvidence(event), RawEvidence(other), "", ctx.rules)
    ensures ApplyEvent(store, ctx, event, stamp, reconciled) == ApplyEvent(store, ctx, other, stamp, reconciled)
  {
    Masking.MaskingIsExact(RawEvidence(event), RawEvidence(other), "", ctx.rules);
    assert Evidence(event, ctx) == Evidence(other, ctx);
  }

  // ---------------------------------------------------------------- one alert's episodes

  datatype Step = Upstream(upstream: string) | AcknowledgeByHand | ResolveByHand

  /** What the episodes of one alert depend on: whether its row exists, its state, and the
      upstream state last heard of. */
  datatype Alert = Absent | Present(state: State, upstream: string)

  function View(store: Store, key: string): Alert {
    if key in store.alerts then Present(store.alerts[key].state, store.alerts[key].upstream) else Absent
  }

  function StateOf(alert: Alert): Option<State> {
    if alert.Absent? then None else Some(alert.state)
  }

  function Moved(alert: Alert, step: Step): Alert {
    match step
    case Upstream(u) => Present(NextState(StateOf(alert), u), u)
    case AcknowledgeByHand =>
      if alert.Present? && (alert.state == Open || alert.state == Errored) then alert.(state := Acknowledged) else alert
    case ResolveByHand =>
      if alert.Present? && alert.upstream !in {"ACTIVE", "ACKNOWLEDGED"} then alert.(state := Resolved) else alert
  }

  function Notice(alert: Alert, step: Step): seq<Kind> {
    if !step.Upstream? then []
    else
      match NotificationFor(StateOf(alert), NextState(StateOf(alert), step.upstream))
      case None => []
      case Some(kind) => [kind]
  }

  /** The key of the alert an operation is about, and what it does to that alert. */
  function KeyOf(op: Operation): string {
    match op
    case Receive(ctx, event, _, _) => DedupKey(ctx.receiver, event)
    case AcknowledgeBy(key, _, _) => key
    case ResolveBy(key, _, _) => key
  }

  function StepOf(op: Operation): Step {
    match op
    case Receive(_, event, _, _) => Upstream(event.state)
    case AcknowledgeBy(_, _, _) => AcknowledgeByHand
    case ResolveBy(_, _, _) => ResolveByHand
  }

  function RequestsWith(id: string, kinds: seq<Kind>): seq<Request> {
    if kinds == [] then [] else [Request(id, kinds[0])] + RequestsWith(id, kinds[1..])
  }

  /** One alert's view of a store step: it moves as its own machine does, and the requests
      made are exactly the notices of that machine, with its identifier; all other alerts
      stay as they are. */
  lemma ViewFollowsStore(store: Store, op: Operation, key: string)
    ensures var after, notices := After(store, op), Notice(View(store, KeyOf(op)), StepOf(op));
            && View(after, KeyOf(op)) == Moved(View(store, KeyOf(op)), StepOf(op))
            && (key != KeyOf(op) ==> View(after, key) == View(store, key))
            && (notices != [] ==> KeyOf(op) in after.alerts)
            && after.requests == store.requests +
                 if notices == [] then [] else RequestsWith(after.alerts[KeyOf(op)].id, notices)
  {
    var notices := Notice(View(store, KeyOf(op)), StepOf(op));
    if notices != [] { assert notices[1..] == []; }
  }

  predicate Active(alert: Alert) {
    alert.Present? && alert.state != Resolved
  }

  predicate StartsEpisode(alert: Alert, step: Step) {
    !Active(alert) && Active(Moved(alert, step))
  }

  function Notices(alert: Alert, steps: seq<Step>): seq<Kind>
    decreases |steps|
  {
    if steps == [] then [] else Notice(alert, steps[0]) + Notices(Moved(alert, steps[0]), steps[1..])
  }

  function AfterSteps(alert: Alert, steps: seq<Step>): Alert
    decreases |steps|
  {
    if steps == [] then alert else AfterSteps(Moved(alert, steps[0]), steps[1..])
  }

  /** Every episode in the run begins with ALERT_OPENED. */
  ghost predicate AllAnnounced(alert: Alert, steps: seq<Step>)
    decreases |steps|
  {
    steps != [] ==>
      && (StartsEpisode(alert, steps[0]) ==> Notice(alert, steps[0]) == [AlertOpened])
      && AllAnnounced(Moved(alert, steps[0]), steps[1..])
  }

  /** Somewhere in the run an upstream acknowledgement arrives for an alert that is not active. */
  ghost predicate AcknowledgedWhileInactive(alert: Alert, steps: seq<Step>)
    decreases |steps|
  {
    steps != [] &&
    ((!Active(alert) && steps[0] == Upstream("ACKNOWLEDGED"))
     || AcknowledgedWhileInactive(Moved(alert, steps[0]), steps[1..]))
  }

  ghost predicate ValidSteps(steps: seq<Step>) {
    forall i | 0 <= i < |steps| :: steps[i].Upstream? ==> ValidUpstream(steps[i].upstream)
  }

  /** Episodes start with ALERT_OPENED exactly as long as no upstream acknowledgement arrives
      for an alert that is absent or resolved. */
  lemma {:induction false} AnnouncedIffNeverAcknowledgedWhileInactive(alert: Alert, steps: seq<Step>)
    requires ValidSteps(steps)
    ensures AllAnnounced(alert, steps) <==> !AcknowledgedWhileInactive(alert, steps)
    decreases |steps|
  {
    if steps != [] {
      assert steps[0].Upstream? ==> ValidUpstream(steps[0].upstream);
      if steps[0].Upstream? { MapStateOf(steps[0].upstream); }
      assert forall i | 0 <= i < |steps[1..]| :: steps[1..][i] == steps[i + 1];
      AnnouncedIffNeverAcknowledgedWhileInactive(Moved(alert, steps[0]), steps[1..]);
    }
  }

  /** A recovery notice ends an episode, and only an upstream completion gives one. */
  lemma RecoveryEndsEpisode(alert: Alert, step: Step)
    ensures AlertRecovered in Notice(alert, step) ==> Active(alert) && !Active(Moved(alert, step))
    ensures AlertRecovered in Notice(alert, step) <==>
            Active(alert) && step.Upstream? && MapState(step.upstream) == Resolved
    ensures AlertOpened in Notice(alert, step) ==> Active(Moved(alert, step))
  {
  }

  /** Bad news that changes something: it comes for an alert that is absent, or in a state other
      than the one it brings and not acknowledged. */
  predicate ChangesForTheWorse(alert: Alert, step: Step) {
    && step.Upstream? && MapState(step.upstream) in {Open, Errored}
    && (alert.Absent? || (alert.state != Acknowledged && alert.state != MapState(step.upstream)))
  }

  /** An opening notice comes exactly with such a change; so between OPEN and ERROR too. */
  lemma OpeningIff(alert: Alert, step: Step)
    ensures AlertOpened in Notice(alert, step) <==> ChangesForTheWorse(alert, step)
    ensures |Notice(alert, step)| <= 1
  {
  }

  /** How often that happens in a run, and how often an upstream completion ends an episode. */
  function Worsenings(alert: Alert, steps: seq<Step>): nat
    decreases |steps|
  {
    if steps == [] then 0
    else (if ChangesForTheWorse(alert, steps[0]) then 1 else 0) + Worsenings(Moved(alert, steps[0]), steps[1..])
  }

  function Completions(alert: Alert, steps: seq<Step>): nat
    decreases |steps|
  {
    if steps == [] then 0
    else
      (if Active(alert) && steps[0].Upstream? && MapState(steps[0].upstream) == Resolved then 1 else 0)
      + Completions(Moved(alert, steps[0]), steps[1..])
  }

  lemma CountOne(kinds: seq<Kind>, kind: Kind)
    requires |kinds| <= 1
    ensures Count(kinds, kind) == if kind in kinds then 1 else 0
  {
    if |kinds| == 1 { assert kinds[1..] == []; }
  }

  /** A run's openings and recoveries number exactly these. */
  lemma {:induction false} NoticesCounted(alert: Alert, steps: seq<Step>)
    ensures Count(Notices(alert, steps), AlertOpened) == Worsenings(alert, steps)
    ensures Count(Notices(alert, steps), AlertRecovered) == Completions(alert, steps)
    decreases |steps|
  {
    if steps != [] {
      var now, rest := Notice(alert, steps[0]), Notices(Moved(alert, steps[0]), steps[1..]);
      NoticesCounted(Moved(alert, steps[0]), steps[1..]);
      CountConcat(now, rest, AlertOpened);
      CountConcat(now, rest, AlertRecovered);
      OpeningIff(alert, steps[0]);
      RecoveryEndsEpisode(alert, steps[0]);
      CountOne(now, AlertOpened);
      CountOne(now, AlertRecovered);
    }
  }

  function Count(kinds: seq<Kind>, kind: Kind): nat {
    if kinds == [] then 0 else (if kinds[0] == kind then 1 else 0) + Count(kinds[1..], kind)
  }

  lemma {:induction false} CountConcat(a: seq<Kind>, b: seq<Kind>, kind: Kind)
    ensures Count(a + b, kind) == Count(a, kind) + Count(b, kind)
  {
    if a == [] {
      assert a + b == b;
    } else {
      assert (a + b)[1..] == a[1..] + b;
      CountConcat(a[1..], b, kind);
    }
  }

  /** As long as every episode is announced, openings outnumber recoveries by at least one
      while the alert is active and never fall behind them. It holds at every point of a run
      because a beginning of such a run is such a run. */
  lemma {:induction false} OpeningsCoverRecoveries(alert: Alert, steps: seq<Step>)
    requires AllAnnounced(alert, steps)
    ensures Count(Notices(alert, steps), AlertRecovered) + (if Active(AfterSteps(alert, steps)) then 1 else 0)
            <= Count(Notices(alert, steps), AlertOpened) + (if Active(alert) then 1 else 0)
    decreases |steps|
  {
    if steps != [] {
      var now, rest := Notice(alert, steps[0]), Notices(Moved(alert, steps[0]), steps[1..]);
      OpeningsCoverRecoveries(Moved(alert, steps[0]), steps[1..]);
      CountConcat(now, rest, AlertOpened);
      CountConcat(now, rest, AlertRecovered);
      RecoveryEndsEpisode(alert, steps[0]);
      assert |now| <= 1;
      if |now| == 1 { assert now == [now[0]] && now[1..] == []; }
    }
  }

  /** From a new alert on, recoveries never exceed openings unless an upstream acknowledgement
      arrived while the alert was absent or resolved. */
  lemma RecoveriesNeverExceedOpenings(steps: seq<Step>)
    requires ValidSteps(steps) && !AcknowledgedWhileInactive(Absent, steps)
    ensures Count(Notices(Absent, steps), AlertRecovered) <= Count(Notices(Absent, steps), AlertOpened)
  {
    AnnouncedIffNeverAcknowledgedWhileInactive(Absent, steps);
    OpeningsCoverRecoveries(Absent, steps);
  }

  // ---------------------------------------------------------------- episodes in the store

  function KindsFor(requests: seq<Request>, id: string): seq<Kind> {
    if requests == [] then []
    else if requests[0].alertId == id then [requests[0].kind] + KindsFor(requests[1..], id)
    else KindsFor(requests[1..], id)
  }

  /** The notifications requested so far for the alert with this key. */
  function RequestedFor(store: Store, key: string): seq<Kind> {
    if key in store.alerts then KindsFor(store.requests, store.alerts[key].id) else []
  }

  /** The steps of one alert among the operations of a run. */
  function StepsFor(ops: seq<Operation>, key: string): seq<Step> {
    if ops == [] then []
    else if KeyOf(ops[0]) == key then [StepOf(ops[0])] + StepsFor(ops[1..], key)
    else StepsFor(ops[1..], key)
  }

  ghost predicate IdInUse(store: Store, id: string) {
    exists key :: key in store.alerts && store.alerts[key].id == id
  }

  /** Different rows have different identifiers, and every request is for some row. */
  ghost predicate Identified(store: Store) {
    && (forall a, b | a in store.alerts && b in store.alerts && store.alerts[a].id == store.alerts[b].id :: a == b)
    && forall request | request in store.requests :: IdInUse(store, request.alertId)
  }

  /** A row that is inserted gets an identifier that no row has. */
  ghost predicate FreshId(store: Store, op: Operation) {
    op.Receive? && KeyOf(op) !in store.alerts ==> !IdInUse(store, op.stamp.newId)
  }

  ghost predicate FreshIds(store: Store, ops: seq<Operation>)
    decreases |ops|
  {
    ops != [] ==> FreshId(store, ops[0]) && FreshIds(After(store, ops[0]), ops[1..])
  }

  lemma {:induction false} KindsForConcat(a: seq<Request>, b: seq<Request>, id: string)
    ensures KindsFor(a + b, id) == KindsFor(a, id) + KindsFor(b, id)
  {
    if a == [] {
      assert a + b == b;
    } else {
      assert (a + b)[1..] == a[1..] + b;
      KindsForConcat(a[1..], b, id);
      ConcatAssoc([a[0].kind], KindsFor(a[1..], id), KindsFor(b, id));
    }
  }

  lemma {:induction false} KindsOfRequestsWith(id: string, kinds: seq<Kind>, other: string)
    ensures KindsFor(RequestsWith(id, kinds), other) == if other == id then kinds else []
  {
    if kinds != [] {
      assert RequestsWith(id, kinds)[1..] == RequestsWith(id, kinds[1..]);
      KindsOfRequestsWith(id, kinds[1..], other);
    }
  }

  lemma {:induction false} NoRequestsNoKinds(requests: seq<Request>, id: string)
    requires forall request | request in requests :: request.alertId != id
    ensures KindsFor(requests, id) == []
  {
    if requests != [] {
      assert requests[0] in requests;
      NoRequestsNoKinds(requests[1..], id);
    }
  }

  /** Rows keep their identifiers, and at most the row of the operation is new. */
  lemma RowsKeepIds(store: Store, op: Operation, key: string)
    ensures key in store.alerts ==> key in After(store, op).alerts && After(store, op).alerts[key].id == store.alerts[key].id
    ensures key in After(store, op).alerts && key !in store.alerts ==>
              op.Receive? && key == KeyOf(op) && After(store, op).alerts[key].id == op.stamp.newId
  {
  }

  lemma {:induction false} RequestsWithId(id: string, kinds: seq<Kind>, request: Request)
    requires request in RequestsWith(id, kinds)
    ensures request.alertId == id
  {
    if request != RequestsWith(id, kinds)[0] { RequestsWithId(id, kinds[1..], request); }
  }

  lemma StepKeepsIdentified(store: Store, op: Operation)
    requires Identified(store) && FreshId(store, op)
    ensures Identified(After(store, op))
  {
    var after, at := After(store, op), KeyOf(op);
    ViewFollowsStore(store, op, at);
    forall a, b | a in after.alerts && b in after.alerts && after.alerts[a].id == after.alerts[b].id ensures a == b {
      RowsKeepIds(store, op, a);
      RowsKeepIds(store, op, b);
    }
    forall request | request in after.requests ensures IdInUse(after, request.alertId) {
      if request in store.requests {
        var key :| key in store.alerts && store.alerts[key].id == request.alertId;
        RowsKeepIds(store, op, key);
      } else {
        RequestsWithId(after.alerts[at].id, Notice(View(store, at), StepOf(op)), request);
      }
    }
  }

  /** One operation adds to the requests for an alert the notices of its own step. */
  lemma StepRequestsNotices(store: Store, op: Operation, key: string)
    requires Identified(store) && FreshId(store, op)
    ensures RequestedFor(After(store, op), key) ==
            RequestedFor(store, key) + if key == KeyOf(op) then Notice(View(store, key), StepOf(op)) else []
  {
    var after, at := After(store, op), KeyOf(op);
    ViewFollowsStore(store, op, at);
    StepKeepsIdentified(store, op);
    RowsKeepIds(store, op, key);
    if key in after.alerts {
      var id, notices := after.alerts[key].id, Notice(View(store, at), StepOf(op));
      if notices != [] {
        KindsForConcat(store.requests, RequestsWith(after.alerts[at].id, notices), id);
        KindsOfRequestsWith(after.alerts[at].id, notices, id);
        assert after.alerts[at].id == id <==> at == key;
      } else {
        assert after.requests == store.requests;
      }
      if key !in store.alerts { NoRequestsNoKinds(store.requests, id); }
      assert KindsFor(after.requests, id) == KindsFor(store.requests, id) + if key == at then notices else [];
    }
  }

  /** The notifications requested for an alert in any run of the store, among the traffic of
      all other alerts, are the notices of its own machine. */
  lemma {:induction false} RequestsAreNotices(store: Store, ops: seq<Operation>, key: string)
    requires Identified(store) && FreshIds(store, ops)
    ensures RequestedFor(AfterAll(store, ops), key) ==
            RequestedFor(store, key) + Notices(View(store, key), StepsFor(ops, key))
    decreases |ops|
  {
    if ops != [] {
      var after := After(store, ops[0]);
      StepKeepsIdentified(store, ops[0]);
      StepRequestsNotices(store, ops[0], key);
      ViewFollowsStore(store, ops[0], key);
      RequestsAreNotices(after, ops[1..], key);
      NoticesCons(View(store, key), View(after, key), ops, key);
      ConcatAssoc(RequestedFor(store, key), if key == KeyOf(ops[0]) then Notice(View(store, key), StepOf(ops[0])) else [],
                  Notices(View(after, key), StepsFor(ops[1..], key)));
    }
  }

  lemma ConcatAssoc<T>(a: seq<T>, b: seq<T>, c: seq<T>)
    ensures a + b + c == a + (b + c)
  {
  }

  /** The notices of a run are those of its first operation and those of the rest. */
  lemma NoticesCons(alert: Alert, later: Alert, ops: seq<Operation>, key: string)
    requires ops != [] && later == if key == KeyOf(ops[0]) then Moved(alert, StepOf(ops[0])) else alert
    ensures Notices(alert, StepsFor(ops, key)) ==
            (if key == KeyOf(ops[0]) then Notice(alert, StepOf(ops[0])) else []) + Notices(later, StepsFor(ops[1..], key))
  {
    var steps := StepsFor(ops[1..], key);
    if key == KeyOf(ops[0]) {
      assert ([StepOf(ops[0])] + steps)[1..] == steps;
    } else {
      assert [] + steps == steps;
    }
  }

  lemma {:induction false} AdmissibleSteps(ops: seq<Operation>, key: string)
    requires forall op | op in ops :: Admissible(op)
    ensures ValidSteps(StepsFor(ops, key))
    decreases |ops|
  {
    if ops != [] {
      assert ops[0] in ops;
      AdmissibleSteps(ops[1..], key);
    }
  }

  /** From an empty store on, whatever happens to other alerts, the recoveries requested for an
      alert never exceed its openings, unless an upstream acknowledgement came for it while it
      was absent or resolved. */
  lemma StoredRecoveriesNeverExceedOpenings(ops: seq<Operation>, key: string)
    requires FreshIds(NEW_STORE, ops) && forall op | op in ops :: Admissible(op)
    requires !AcknowledgedWhileInactive(Absent, StepsFor(ops, key))
    ensures var requested := RequestedFor(AfterAll(NEW_STORE, ops), key);
            Count(requested, AlertRecovered) <= Count(requested, AlertOpened)
  {
    AdmissibleSteps(ops, key);
    StoredNotices(ops, key);
    RecoveriesNeverExceedOpenings(StepsFor(ops, key));
  }

  /** In any run from the empty store, whatever happens to other alerts, the openings requested
      for an alert number its changes for the worse, and the recoveries its completions. */
  lemma StoredNoticesCounted(ops: seq<Operation>, key: string)
    requires FreshIds(NEW_STORE, ops)
    ensures var requested := RequestedFor(AfterAll(NEW_STORE, ops), key);
            && Count(requested, AlertOpened) == Worsenings(Absent, StepsFor(ops, key))
            && Count(requested, AlertRecovered) == Completions(Absent, StepsFor(ops, key))
  {
    StoredNotices(ops, key);
    NoticesCounted(Absent, StepsFor(ops, key));
  }

  lemma StoredNotices(ops: seq<Operation>, key: string)
    requires FreshIds(NEW_STORE, ops)
    ensures RequestedFor(AfterAll(NEW_STORE, ops), key) == Notices(Absent, StepsFor(ops, key))
  {
    RequestsAreNotices(NEW_STORE, ops, key);
    var notices := Notices(Absent, StepsFor(ops, key));
    assert [] + notices == notices;
  }

  ghost predicate DispatchedAreOpened(store: Store) {
    forall id :: id in store.dispatched <==> Request(id, AlertOpened) in store.requests
  }

  /** Sahara is told of exactly the alerts for which ALERT_OPENED was requested. */
  lemma {:induction false} DispatchedIffOpened(store: Store, ops: seq<Operation>)
    requires DispatchedAreOpened(store)
    ensures DispatchedAreOpened(AfterAll(store, ops))
    decreases |ops|
  {
    if ops != [] { DispatchedIffOpened(After(store, ops[0]), ops[1..]); }
  }

  /** The proviso is needed: acknowledged first and then completed, an alert recovers without
      ever having opened. */
  lemma RecoveryWithoutOpening()
    ensures Notices(Absent, [Upstream("ACKNOWLEDGED"), Upstream("COMPLETED")]) == [AlertRecovered]
  {
    var steps := [Upstream("ACKNOWLEDGED"), Upstream("COMPLETED")];
    assert ValidUpstream("ACKNOWLEDGED") && ValidUpstream("COMPLETED");
    MapStateOf("ACKNOWLEDGED");
    MapStateOf("COMPLETED");
    var acknowledged := Moved(Absent, steps[0]);
    assert acknowledged == Present(Acknowledged, "ACKNOWLEDGED");
    assert steps[1..] == [Upstream("COMPLETED")] && steps[1..][1..] == [];
    assert Notices(Moved(acknowledged, steps[1]), []) == [];
    assert Notice(acknowledged, steps[1]) == [AlertRecovered];
    assert Notices(acknowledged, steps[1..]) == [AlertRecovered] + [];
  }

  /** Requests become deliveries through an insert that does nothing when the alert already has
      a delivery of that kind on the channel. */
  function Delivered(existing: set<Kind>, requested: seq<Kind>): seq<Kind>
    decreases |requested|
  {
    if requested == [] then []
    else if requested[0] in existing then Delivered(existing, requested[1..])
    else [requested[0]] + Delivered(existing + {requested[0]}, requested[1..])
  }

  /** On each channel an alert therefore delivers each kind at most once in its whole life. */
  lemma {:induction false} EachKindDeliveredOnce(existing: set<Kind>, requested: seq<Kind>, kind: Kind)
    ensures Count(Delivered(existing, requested), kind) ==
            if kind in requested && kind !in existing then 1 else 0
    decreases |requested|
  {
    if requested != [] {
      var isFirst := requested[0] !in existing;
      EachKindDeliveredOnce(if isFirst then existing + {requested[0]} else existing, requested[1..], kind);
      if isFirst {
        var rest := Delivered(existing + {requested[0]}, requested[1..]);
        assert ([requested[0]] + rest)[1..] == rest;
      }
    }
  }

  /** Later requests deliver nothing exactly when their kinds have all been delivered before: an
      alert that has opened and recovered is silent from then on. */
  lemma {:induction false} LaterDeliverNothingIff(existing: set<Kind>, requested: seq<Kind>, later: seq<Kind>)
    ensures Delivered(existing, requested + later) == Delivered(existing, requested) <==>
            forall kind | kind in later :: kind in existing || kind in requested
    decreases |requested|
  {
    if requested == [] {
      assert requested + later == later;
      if later != [] { DeliveredIffNew(existing, later); }
    } else {
      assert (requested + later)[1..] == requested[1..] + later;
      var known := existing + {requested[0]};
      if requested[0] in existing { assert known == existing; }
      LaterDeliverNothingIff(known, requested[1..], later);
      var all, some := Delivered(known, requested[1..] + later), Delivered(known, requested[1..]);
      assert ([requested[0]] + all)[1..] == all && ([requested[0]] + some)[1..] == some;
      assert forall kind :: kind in requested <==> kind == requested[0] || kind in requested[1..];
    }
  }

  lemma {:induction false} DeliveredIffNew(existing: set<Kind>, requested: seq<Kind>)
    ensures Delivered(existing, requested) == [] <==> forall kind | kind in requested :: kind in existing
    decreases |requested|
  {
    if requested != [] {
      assert forall kind :: kind in requested <==> kind == requested[0] || kind in requested[1..];
      DeliveredIffNew(existing, requested[1..]);
    }
  }

  /** Once both kinds have been requested, nothing more is ever delivered. */
  lemma SilentOnceBothDelivered(requested: seq<Kind>, later: seq<Kind>)
    requires AlertOpened in requested && AlertRecovered in requested
    ensures Delivered({}, requested + later) == Delivered({}, requested)
  {
    LaterDeliverNothingIff({}, requested, later);
    forall kind | kind in later ensures kind in requested { assert kind == AlertOpened || kind == AlertRecovered; }
  }

  /** Not so when the first episode was not announced: its recovery is delivered, and the opening
      of the next episode is delivered too. */
  lemma UnannouncedThenAnnounced()
    ensures Delivered({}, Notices(Absent, [Upstream("ACKNOWLEDGED"), Upstream("COMPLETED"), Upstream("ACTIVE")]))
            == [AlertRecovered, AlertOpened]
  {
    var a, c, o := Upstream("ACKNOWLEDGED"), Upstream("COMPLETED"), Upstream("ACTIVE");
    assert ValidUpstream("ACKNOWLEDGED") && ValidUpstream("COMPLETED") && ValidUpstream("ACTIVE");
    MapStateOf("ACKNOWLEDGED");
    MapStateOf("COMPLETED");
    MapStateOf("ACTIVE");
    var acknowledged, completed := Moved(Absent, a), Moved(Moved(Absent, a), c);
    assert [a, c, o][1..] == [c, o] && [c, o][1..] == [o] && [o][1..] == [];
    assert Notices(completed, [o]) == [AlertOpened] + Notices(Moved(completed, o), []);
    assert Notices(acknowledged, [c, o]) == [AlertRecovered] + Notices(completed, [o]);
    assert Notices(Absent, [a, c, o]) == [] + Notices(acknowledged, [c, o]);
    assert Notices(Absent, [a, c, o]) == [AlertRecovered, AlertOpened];
    DeliverTwo(AlertRecovered, AlertOpened);
  }

  lemma DeliverTwo(first: Kind, second: Kind)
    requires first != second
    ensures Delivered({}, [first, second]) == [first, second]
  {
    assert [first, second][1..] == [second] && [second][1..] == [];
    assert {} + {first} == {first};
    assert Delivered({first}, [second]) == [second] + Delivered({first} + {second}, []);
    assert Delivered({}, [first, second]) == [first] + Delivered({first}, [second]);
  }
}
