/** Webhook ingestion: one delivery carries up to a hundred events; its body is remembered by
    hash so that a body is worked on once; events are applied in order until one is invalid. */
module AlertIngest {
  import opened Outcomes
  import opened Alerts
  import AlertLifecycle

  datatype Envelope = Envelope(events: seq<Event>, event: Option<Event>)

  /** The parts that are given: how a body decodes, how an event is normalised, how a body is
      hashed, and the context of the one receiver that does not change. */
  datatype World = World(
    ctx: Context, decode: string -> Option<Envelope>, normalize: Event -> Event, hash: string -> string)

  /** A delivery attempt. `stamps` gives the clock reading and identifier for each event. */
  datatype Attempt = Attempt(body: string, authorised: bool, stamps: nat -> Stamp)

  datatype Status = Accepted | Processed | Rejected | Duplicated

  datatype Delivery = Delivery(status: Status, eventCount: nat)

  datatype InvalidEvent = IdentityRequired | StateInvalid | MonitorTypeNotEnabled

  datatype Reply =
    | Unauthorized
    | BodyInvalid
    | EventCountInvalid
    | Duplicate(known: Delivery)
    | EventInvalid(reason: InvalidEvent)
    | Done(processed: nat)

  /** The delivery records by body hash, the hashes in the order of receipt, and the alerts. */
  datatype Box = Box(deliveries: map<string, Delivery>, received: seq<string>, store: Store)

  const EMPTY := Box(map[], [], NEW_STORE)

  /** How many records the listing of deliveries returns. */
  const LISTED: nat := 100

  /** The record is among those received last. */
  predicate InListing(received: seq<string>, bodyHash: string) {
    bodyHash in if |received| > LISTED then received[|received| - LISTED..] else received
  }

  // ---------------------------------------------------------------- validation

  function Problem(event: Event, expected: seq<string>): Option<InvalidEvent> {
    if event.monitorId == "" || event.triggerId == "" || event.alertId == "" then Some(IdentityRequired)
    else if !ValidUpstream(event.state) then Some(StateInvalid)
    else if event.monitorType !in expected then Some(MonitorTypeNotEnabled)
    else None
  }

  method ValidateEvent(event: Event, expected: seq<string>) returns (problem: Option<InvalidEvent>)
    ensures problem == Problem(event, expected)
    ensures var identified := event.monitorId != "" && event.triggerId != "" && event.alertId != "";
            var known := event.state in ["ACTIVE", "ACKNOWLEDGED", "COMPLETED", "DELETED", "ERROR"];
            && (problem == Some(IdentityRequired) <==> !identified)
            && (problem == Some(StateInvalid) <==> identified && !known)
            && (problem == Some(MonitorTypeNotEnabled) <==> identified && known && event.monitorType !in expected)
            && (problem == None <==> identified && known && event.monitorType in expected)
  {
    if event.monitorId == "" || event.triggerId == "" || event.alertId == "" { return Some(IdentityRequired); }
    var allowedStates := {"ACTIVE", "ACKNOWLEDGED", "COMPLETED", "DELETED", "ERROR"};
    if event.state !in allowedStates { return Some(StateInvalid); }
    var allowedType := false;
    for i := 0 to |expected|
      invariant allowedType <==> event.monitorType in expected[..i]
    {
      if event.monitorType == expected[i] { allowedType := true; }
    }
    assert expected[..|expected|] == expected;
    if !allowedType { return Some(MonitorTypeNotEnabled); }
    return None;
  }

  function EventsOf(envelope: Envelope): (events: seq<Event>)
    ensures envelope.event.None? ==> events == envelope.events
    ensures envelope.event.Some? ==> events == envelope.events + [envelope.event.value]
  {
    envelope.events + if envelope.event.Some? then [envelope.event.value] else []
  }

  /** The body decodes to an envelope with 1 to 100 events. */
  predicate Acceptable(world: World, body: string) {
    world.decode(body).Some? && 1 <= |EventsOf(world.decode(body).value)| <= 100
  }

  /** What is wrong with an event after normalisation. */
  function ProblemOf(world: World, event: Event): Option<InvalidEvent> {
    Problem(world.normalize(event), world.ctx.receiver.expectedMonitorTypes)
  }

  predicate IsValid(world: World, event: Event) {
    ProblemOf(world, event) == None
  }

  /** The number of leading events that are valid, counted from `from`. */
  function ValidPrefix(world: World, events: seq<Event>, from: nat): (n: nat)
    requires from <= |events|
    ensures from <= n <= |events|
    ensures forall i | from <= i < n :: IsValid(world, events[i])
    ensures n < |events| ==> !IsValid(world, events[n])
    decreases |events| - from
  {
    if from < |events| && IsValid(world, events[from]) then ValidPrefix(world, events, from + 1) else from
  }

  function WithEvent(store: Store, world: World, event: Event, stamp: Stamp): Store {
    AlertLifecycle.After(store, AlertLifecycle.Receive(world.ctx, world.normalize(event), stamp, false))
  }

  /** The store after the events from `from` up to `n`, normalised, have been applied in order. */
  function Applied(world: World, store: Store, events: seq<Event>, stamps: nat -> Stamp, from: nat, n: nat): Store
    requires from <= n <= |events|
    decreases n - from
  {
    if from == n then store
    else Applied(world, WithEvent(store, world, events[from], stamps(from)), events, stamps, from + 1, n)
  }

  /** All there is to do for a body: apply its longest prefix of valid events. */
  function Worked(world: World, store: Store, attempt: Attempt): Store
    requires Acceptable(world, attempt.body)
  {
    var events := EventsOf(world.decode(attempt.body).value);
    Applied(world, store, events, attempt.stamps, 0, ValidPrefix(world, events, 0))
  }

  function Outcome(world: World, body: string): Delivery
    requires Acceptable(world, body)
  {
    var events := EventsOf(world.decode(body).value);
    Delivery(if ValidPrefix(world, events, 0) == |events| then Processed else Rejected, |events|)
  }

  /** The boxes before and after one attempt. */
  function Ingested(world: World, box: Box, attempt: Attempt): Box {
    if !attempt.authorised || !Acceptable(world, attempt.body) || world.hash(attempt.body) in box.deliveries then box
    else
      Box(box.deliveries[world.hash(attempt.body) := Outcome(world, attempt.body)],
          box.received + [world.hash(attempt.body)], Worked(world, box.store, attempt))
  }

  /** A duplicate is answered with its record as long as that is listed. */
  function KnownAs(box: Box, bodyHash: string, eventCount: nat): Delivery {
    if bodyHash in box.deliveries && InListing(box.received, bodyHash) then box.deliveries[bodyHash]
    else Delivery(Duplicated, eventCount)
  }

  function ReplyTo(world: World, box: Box, attempt: Attempt): Reply {
    if !attempt.authorised then Unauthorized
    else if world.decode(attempt.body).None? then BodyInvalid
    else if !Acceptable(world, attempt.body) then EventCountInvalid
    else
      var events := EventsOf(world.decode(attempt.body).value);
      if world.hash(attempt.body) in box.deliveries then Duplicate(KnownAs(box, world.hash(attempt.body), |events|)) else
      var n := ValidPrefix(world, events, 0);
      if n == |events| then Done(n) else EventInvalid(ProblemOf(world, events[n]).value)
  }

  // ---------------------------------------------------------------- the method

  lemma Overwrite(deliveries: map<string, Delivery>, key: string, first: Delivery, second: Delivery)
    ensures deliveries[key := first][key := second] == deliveries[key := second]
  {
  }

  class Inbox {
    const world: World
    const service: Service
    var deliveries: map<string, Delivery>
    var received: seq<string>

    function Snapshot(): Box
      reads this, service
    {
      Box(deliveries, received, service.Snapshot())
    }

    constructor (world: World)
      ensures Snapshot() == EMPTY && this.world == world && fresh(service)
    {
      this.world := world;
      service := new Service();
      deliveries, received := map[], [];
    }

    method Ingest(attempt: Attempt) returns (reply: Reply)
      modifies this, service
      ensures Snapshot() == Ingested(world, old(Snapshot()), attempt)
      ensures reply == ReplyTo(world, old(Snapshot()), attempt)
      ensures var decoded := world.decode(attempt.body);
              var count := if decoded.Some? then |decoded.value.events| + (if decoded.value.event.Some? then 1 else 0) else 0;
              && (reply == Unauthorized <==> !attempt.authorised)
              && (reply == BodyInvalid <==> attempt.authorised && decoded.None?)
              && (reply == EventCountInvalid <==> attempt.authorised && decoded.Some? && !(1 <= count <= 100))
              && (reply.Duplicate? <==> attempt.authorised && 1 <= count <= 100 && world.hash(attempt.body) in old(deliveries))
              && (reply.Done? || reply.EventInvalid? || Snapshot() == old(Snapshot()))
      ensures reply.Duplicate? ==>
                var place := world.hash(attempt.body) in
                             (if |old(received)| > 100 then old(received)[|old(received)| - 100..] else old(received));
                && (place ==> reply.known == old(deliveries)[world.hash(attempt.body)])
                && (!place ==> reply.known.status == Duplicated)
    {
      if !attempt.authorised { return Unauthorized; }
      var decoded := world.decode(attempt.body);
      if decoded.None? { return BodyInvalid; }
      var events := EventsOf(decoded.value);
      if |events| == 0 || |events| > 100 { return EventCountInvalid; }
      var bodyHash := world.hash(attempt.body);
      if bodyHash in deliveries {
        var latest := if |received| > LISTED then received[|received| - LISTED..] else received;
        for i := 0 to |latest|
          invariant bodyHash !in latest[..i]
        {
          if latest[i] == bodyHash { return Duplicate(deliveries[bodyHash]); }
        }
        assert latest[..|latest|] == latest;
        return Duplicate(Delivery(Duplicated, |events|));
      }
      reply := Work(events, bodyHash, attempt.stamps);
    }

    /** What `Ingest` does for a body it has not seen. */
    method Work(events: seq<Event>, bodyHash: string, stamps: nat -> Stamp) returns (reply: Reply)
      modifies this`deliveries, this`received, service
      ensures var n := ValidPrefix(world, events, 0);
              && service.Snapshot() == Applied(world, old(service.Snapshot()), events, stamps, 0, n)
              && received == old(received) + [bodyHash]
              && deliveries == old(deliveries)[bodyHash := Delivery(if n == |events| then Processed else Rejected, |events|)]
              && reply == if n == |events| then Done(n) else EventInvalid(ProblemOf(world, events[n]).value)
    {
      deliveries, received := deliveries[bodyHash := Delivery(Accepted, |events|)], received + [bodyHash];
      var processed, problem := Process(events, stamps);
      var status := if problem.None? then Processed else Rejected;
      Overwrite(old(deliveries), bodyHash, Delivery(Accepted, |events|), Delivery(status, |events|));
      deliveries := deliveries[bodyHash := Delivery(status, |events|)];
      reply := if problem.None? then Done(processed) else EventInvalid(problem.value);
    }

    /** The loop of `Ingest` over the events of one delivery. */
    method Process(events: seq<Event>, stamps: nat -> Stamp) returns (processed: nat, problem: Option<InvalidEvent>)
      modifies service
      ensures processed == ValidPrefix(world, events, 0)
      ensures service.Snapshot() == Applied(world, old(service.Snapshot()), events, stamps, 0, processed)
      ensures problem == if processed == |events| then None else ProblemOf(world, events[processed])
      ensures problem.None? <==> processed == |events|
    {
      processed := 0;
      ghost var total := ValidPrefix(world, events, 0);
      for i := 0 to |events|
        invariant processed == i
        invariant ValidPrefix(world, events, 0) == ValidPrefix(world, events, i)
        invariant i <= total
        invariant Applied(world, service.Snapshot(), events, stamps, i, total) ==
                  Applied(world, old(service.Snapshot()), events, stamps, 0, total)
      {
        var event := world.normalize(events[i]);
        problem := ValidateEvent(event, world.ctx.receiver.expectedMonitorTypes);
        if problem.Some? { return; }
        service.Apply(world.ctx, event, stamps(i), false);
        processed := processed + 1;
      }
      problem := None;
    }
  }

  // ---------------------------------------------------------------- a delivery as a run

  /** The events of a delivery from `from` up to `n`, normalised, received one after the other;
      none of them counts as a reconciliation. */
  function Receipts(world: World, events: seq<Event>, stamps: nat -> Stamp, from: nat, n: nat): seq<AlertLifecycle.Operation>
    requires from <= n <= |events|
    decreases n - from
  {
    if from == n then []
    else
      [AlertLifecycle.Receive(world.ctx, world.normalize(events[from]), stamps(from), false)]
      + Receipts(world, events, stamps, from + 1, n)
  }

  /** Working on a delivery is a run of the alert state machine, so all that is proved of runs
      holds of deliveries. */
  lemma {:induction false} DeliveryIsRun(world: World, store: Store, events: seq<Event>, stamps: nat -> Stamp, from: nat, n: nat)
    requires from <= n <= |events|
    ensures Applied(world, store, events, stamps, from, n) == AlertLifecycle.AfterAll(store, Receipts(world, events, stamps, from, n))
    decreases n - from
  {
    if from < n {
      FirstReceipt(world, events, stamps, from, n);
      DeliveryIsRun(world, WithEvent(store, world, events[from], stamps(from)), events, stamps, from + 1, n);
    }
  }

  lemma FirstReceipt(world: World, events: seq<Event>, stamps: nat -> Stamp, from: nat, n: nat)
    requires from < n <= |events|
    ensures var ops := Receipts(world, events, stamps, from, n);
            && ops != [] && ops[1..] == Receipts(world, events, stamps, from + 1, n)
            && ops[0] == AlertLifecycle.Receive(world.ctx, world.normalize(events[from]), stamps(from), false)
  {
  }

  // ---------------------------------------------------------------- exactly once

  /** The box after a sequence of attempts at one receiver. */
  function AfterAttempts(world: World, attempts: seq<Attempt>): Box {
    if attempts == [] then EMPTY
    else Ingested(world, AfterAttempts(world, attempts[..|attempts| - 1]), attempts[|attempts| - 1])
  }

  predicate Counts(world: World, attempt: Attempt) {
    attempt.authorised && Acceptable(world, attempt.body)
  }

  /** The bodies of the authorised attempts with an acceptable body. */
  function AcceptedBodies(world: World, attempts: seq<Attempt>): set<string> {
    set i | 0 <= i < |attempts| && Counts(world, attempts[i]) :: attempts[i].body
  }

  /** Of those attempts, the ones whose body came for the first time. */
  function FirstOccurrences(world: World, attempts: seq<Attempt>): (firsts: seq<Attempt>)
    ensures forall f | f in firsts :: Acceptable(world, f.body)
  {
    if attempts == [] then []
    else
      var earlier, last := attempts[..|attempts| - 1], attempts[|attempts| - 1];
      FirstOccurrences(world, earlier)
      + if Counts(world, last) && last.body !in AcceptedBodies(world, earlier) then [last] else []
  }

  function WorkedAll(world: World, attempts: seq<Attempt>): Store
    requires forall a | a in attempts :: Acceptable(world, a.body)
  {
    if attempts == [] then EMPTY.store
    else Worked(world, WorkedAll(world, attempts[..|attempts| - 1]), attempts[|attempts| - 1])
  }

  lemma AcceptedBodiesSnoc(world: World, earlier: seq<Attempt>, last: Attempt)
    ensures AcceptedBodies(world, earlier + [last]) ==
            AcceptedBodies(world, earlier) + if Counts(world, last) then {last.body} else {}
  {
    var all, attempts := AcceptedBodies(world, earlier + [last]), earlier + [last];
    forall b | b in AcceptedBodies(world, earlier) ensures b in all {
      var i :| 0 <= i < |earlier| && Counts(world, earlier[i]) && earlier[i].body == b;
      assert attempts[i] == earlier[i];
    }
    if Counts(world, last) { assert attempts[|earlier|] == last && last.body in all; }
    forall b | b in all ensures b in AcceptedBodies(world, earlier) || (Counts(world, last) && b == last.body) {
      var i :| 0 <= i < |attempts| && Counts(world, attempts[i]) && attempts[i].body == b;
      if i < |earlier| { assert attempts[i] == earlier[i]; }
    }
  }

  function Bodies(attempts: seq<Attempt>): seq<string> {
    seq(|attempts|, i requires 0 <= i < |attempts| => attempts[i].body)
  }

  ghost predicate Distinct(bodies: seq<string>) {
    forall i, j | 0 <= i < j < |bodies| :: bodies[i] != bodies[j]
  }

  lemma AppendNew(bodies: seq<string>, all: set<string>, body: string)
    requires Distinct(bodies) && (forall b :: b in bodies <==> b in all) && body !in all
    ensures Distinct(bodies + [body]) && forall b :: b in bodies + [body] <==> b in all + {body}
  {
    assert forall i | 0 <= i < |bodies| :: bodies[i] in bodies;
  }

  /** The first occurrences have distinct bodies, and these are all the accepted bodies. */
  lemma {:induction false} FirstOccurrencesCover(world: World, attempts: seq<Attempt>)
    ensures var bodies := Bodies(FirstOccurrences(world, attempts));
            Distinct(bodies) && forall b :: b in bodies <==> b in AcceptedBodies(world, attempts)
  {
    if attempts != [] {
      var earlier, last := attempts[..|attempts| - 1], attempts[|attempts| - 1];
      assert attempts == earlier + [last];
      FirstOccurrencesCover(world, earlier);
      AcceptedBodiesSnoc(world, earlier, last);
      var before := FirstOccurrences(world, earlier);
      if Counts(world, last) && last.body !in AcceptedBodies(world, earlier) {
        AppendNew(Bodies(before), AcceptedBodies(world, earlier), last.body);
        assert Bodies(before + [last]) == Bodies(before) + [last.body];
      } else {
        assert FirstOccurrences(world, attempts) == before;
      }
    }
  }

  ghost predicate InjectiveHash(world: World) {
    forall a, b :: world.hash(a) == world.hash(b) ==> a == b
  }

  /** The records are exactly those of the accepted bodies, each with its outcome. */
  ghost predicate Remembers(world: World, deliveries: map<string, Delivery>, bodies: set<string>) {
    && (forall h | h in deliveries :: exists b :: b in bodies && world.hash(b) == h)
    && forall b | b in bodies ::
         Acceptable(world, b) && world.hash(b) in deliveries && deliveries[world.hash(b)] == Outcome(world, b)
  }

  lemma RecordedIffAccepted(world: World, deliveries: map<string, Delivery>, bodies: set<string>, body: string)
    requires InjectiveHash(world) && Remembers(world, deliveries, bodies)
    ensures world.hash(body) in deliveries <==> body in bodies
  {
  }

  lemma NewRecord(world: World, deliveries: map<string, Delivery>, bodies: set<string>, body: string)
    requires InjectiveHash(world) && Remembers(world, deliveries, bodies)
    requires body !in bodies && Acceptable(world, body)
    ensures Remembers(world, deliveries[world.hash(body) := Outcome(world, body)], bodies + {body})
  {
    var all := bodies + {body};
    var after := deliveries[world.hash(body) := Outcome(world, body)];
    forall h | h in after ensures exists b :: b in all && world.hash(b) == h {
      if h in deliveries {
        var b :| b in bodies && world.hash(b) == h;
        assert b in all;
      } else {
        assert body in all;
      }
    }
  }

  /** Exactly once and prefix-exact: for any sequence of attempts the alert store is what results
      from working on the first occurrence of each distinct accepted body, in order, each for
      its longest prefix of valid events; there is one delivery record per accepted body, and
      its outcome is PROCESSED exactly when that prefix is the whole list. */
  lemma {:induction false} ExactlyOncePerBody(world: World, attempts: seq<Attempt>)
    requires InjectiveHash(world)
    ensures AfterAttempts(world, attempts).store == WorkedAll(world, FirstOccurrences(world, attempts))
    ensures Remembers(world, AfterAttempts(world, attempts).deliveries, AcceptedBodies(world, attempts))
  {
    if attempts != [] {
      var earlier, last := attempts[..|attempts| - 1], attempts[|attempts| - 1];
      assert attempts == earlier + [last];
      ExactlyOncePerBody(world, earlier);
      AcceptedBodiesSnoc(world, earlier, last);
      var box, bodies := AfterAttempts(world, earlier), AcceptedBodies(world, earlier);
      RecordedIffAccepted(world, box.deliveries, bodies, last.body);
      var before, firsts := FirstOccurrences(world, earlier), FirstOccurrences(world, attempts);
      if Counts(world, last) && last.body !in bodies {
        NewRecord(world, box.deliveries, bodies, last.body);
        assert firsts == before + [last] && firsts[..|firsts| - 1] == before;
      } else {
        assert firsts == before && AcceptedBodies(world, attempts) == bodies;
      }
    }
  }

  /** A rejected body is not retried: sending it again changes nothing, whatever had become of
      it the first time. */
  lemma RedeliveryChangesNothing(world: World, box: Box, first: Attempt, again: Attempt)
    requires first.body == again.body && first.authorised
    ensures Ingested(world, Ingested(world, box, first), again) == Ingested(world, box, first)
  {
  }
}
