/** The alert table one SQL statement at a time. `applyEvent` first selects the row of its key
    and later inserts or updates, `Resolve` first looks at the upstream state and later updates,
    both outside any transaction; statements of other calls may come in between. */
module AlertStatements {
  import opened Outcomes
  import opened Alerts
  import opened AlertLifecycle

  datatype Stored = Stored(key: string, row: Row)

  /** The alert table by row identifier. */
  type Table = map<string, Stored>

  /** What the SELECT of a call found for its key. */
  datatype Found = Missing | Existing(id: string, state: State)

  /** What a call has read when its first statement is done: the row of its key, or that the
      row to resolve is not active upstream. */
  datatype Read = Read(key: string, found: Found) | Checked(id: string)

  /** Upstream states in which an alert cannot be resolved by hand. */
  predicate Live(upstream: string) {
    upstream == "ACTIVE" || upstream == "ACKNOWLEDGED"
  }

  /** The table, and for each call between its two statements what it has read. */
  datatype Database = Database(table: Table, pending: map<nat, Read>)

  datatype Statement =
    | Select(call: nat, read: Read)
    | Write(call: nat, receiver: Receiver, event: Event, evidence: Masking.Value, stamp: Stamp, reconciled: bool)
    | AcknowledgeRow(id: string, actor: string, now: int)
    | ResolveRow(call: nat, id: string, now: int)

  /** The SELECT takes a row of the key that was created last; the check before a resolution
      finds the row and that it is not active upstream, or the call ends there. */
  ghost predicate Finds(table: Table, read: Read) {
    match read
    case Read(key, Missing) => forall id | id in table :: table[id].key != key
    case Read(key, Existing(id, state)) =>
      && id in table && table[id].key == key && table[id].row.state == state
      && forall other | other in table && table[other].key == key ::
           table[other].row.createdAt <= table[id].row.createdAt
    case Checked(id) => id in table && !Live(table[id].row.upstream)
  }

  /** A call selects, then writes what it selected for; new identifiers are new. */
  ghost predicate Enabled(db: Database, s: Statement) {
    match s
    case Select(call, read) => call !in db.pending && Finds(db.table, read)
    case Write(call, receiver, event, _, stamp, _) =>
      && call in db.pending && db.pending[call].Read? && db.pending[call].key == DedupKey(receiver, event)
      && (db.pending[call].found.Missing? ==> stamp.newId !in db.table)
    case AcknowledgeRow(_, _, _) => true
    case ResolveRow(call, id, _) => call in db.pending && db.pending[call] == Checked(id)
  }

  /** The partial unique index: at most one open or acknowledged row for each key. */
  ghost predicate ActiveUnique(table: Table) {
    forall a, b | a in table && b in table && table[a].key == table[b].key
                  && table[a].row.state in {Open, Acknowledged} && table[b].row.state in {Open, Acknowledged} :: a == b
  }

  function Inserting(table: Table, s: Statement): Table
    requires s.Write?
  {
    table[s.stamp.newId := Stored(DedupKey(s.receiver, s.event), Inserted(s.event, s.evidence, s.receiver, s.stamp, s.reconciled))]
  }

  /** The UPDATE sets the state computed from the state that was read, on the row as it is now. */
  function Updating(table: Table, s: Statement, id: string, read: State): Table
    requires s.Write? && id in table
  {
    WithRow(table, id, Updated(table[id].row.(state := read), s.event, s.evidence, s.stamp, s.reconciled))
  }

  function WithRow(table: Table, id: string, row: Row): Table
    requires id in table
  {
    table[id := Stored(table[id].key, row)]
  }

  /** What a statement would make of the table. */
  function Intended(table: Table, pending: map<nat, Read>, s: Statement): Table {
    match s
    case Select(_, _) => table
    case Write(call, _, _, _, _, _) =>
      if call !in pending || !pending[call].Read? then table
      else
        (match pending[call].found
         case Missing => Inserting(table, s)
         case Existing(id, read) => if id in table then Updating(table, s, id, read) else table)
    case AcknowledgeRow(id, actor, now) =>
      if id in table && table[id].row.state in {Open, Errored} then WithRow(table, id, AcknowledgedRow(table[id].row, actor, now))
      else table
    case ResolveRow(_, id, now) =>
      if id in table && table[id].row.state in {Open, Acknowledged, Errored} then WithRow(table, id, ResolvedRow(table[id].row, now))
      else table
  }

  /** A statement that would break the unique index fails and changes nothing. */
  ghost function Committed(before: Table, intended: Table): (after: Table)
    ensures ActiveUnique(before) ==> ActiveUnique(after)
  {
    if ActiveUnique(intended) then intended else before
  }

  function PendingAfter(pending: map<nat, Read>, s: Statement): map<nat, Read> {
    match s
    case Select(call, read) => pending[call := read]
    case Write(call, _, _, _, _, _) => pending - {call}
    case AcknowledgeRow(_, _, _) => pending
    case ResolveRow(call, _, _) => pending - {call}
  }

  ghost function Execute(db: Database, s: Statement): Database {
    Database(Committed(db.table, Intended(db.table, db.pending, s)), PendingAfter(db.pending, s))
  }

  ghost predicate StepAt(states: seq<Database>, run: seq<Statement>, n: nat)
    requires n < |run| && |states| == |run| + 1
  {
    Enabled(states[n], run[n]) && states[n + 1] == Execute(states[n], run[n])
  }

  /** The statements of `run` lead from state to state. */
  ghost predicate Behaviour(states: seq<Database>, run: seq<Statement>) {
    |states| == |run| + 1 && forall n: nat | n < |run| :: StepAt(states, run, n)
  }

  // ---------------------------------------------------------------- what interleaving keeps

  /** What holds of every row at every moment. In contrast to `Coherent`, a resolved row may
      have heard of an active monitor; when, is the matter of overtaken resolutions below. */
  ghost predicate RowHolds(row: Row) {
    && (row.resolvedAt.Some? <==> row.state == Resolved)
    && (row.state == Open ==> row.upstream == "ACTIVE")
    && (row.state == Errored ==> row.upstream == "ERROR")
    && (row.state == Acknowledged ==> row.upstream in ["ACTIVE", "ACKNOWLEDGED", "ERROR"])
  }

  ghost predicate TableHolds(table: Table) {
    ActiveUnique(table) && RowsHold(table)
  }

  ghost predicate RowsHold(table: Table) {
    forall id | id in table :: RowHolds(table[id].row)
  }

  lemma UpdatedRowHolds(s: Statement, row: Row)
    requires s.Write? && ValidUpstream(s.event.state)
    ensures RowHolds(Updated(row, s.event, s.evidence, s.stamp, s.reconciled))
  {
    MapStateOf(s.event.state);
  }

  lemma InsertedRowHolds(s: Statement)
    requires s.Write? && ValidUpstream(s.event.state)
    ensures RowHolds(Inserted(s.event, s.evidence, s.receiver, s.stamp, s.reconciled))
  {
    MapStateOf(s.event.state);
  }

  lemma IntendedRowsHold(table: Table, pending: map<nat, Read>, s: Statement)
    requires RowsHold(table) && (s.Write? ==> ValidUpstream(s.event.state))
    ensures RowsHold(Intended(table, pending, s))
  {
    if s.Write? && s.call in pending && pending[s.call].Read? {
      match pending[s.call].found
      case Missing => InsertedRowHolds(s);
      case Existing(id, read) => if id in table { UpdatedRowHolds(s, table[id].row.(state := read)); }
    }
  }

  ghost predicate ValidInputs(run: seq<Statement>) {
    forall n | 0 <= n < |run| && run[n].Write? :: ValidUpstream(run[n].event.state)
  }

  /** However the statements of concurrent calls interleave, inserts included, whatever they
      had read and whichever of them the index refuses: a row has a resolution time exactly
      when it is resolved, an open row has heard ACTIVE and an errored one ERROR, and no key
      has two rows open or acknowledged. */
  lemma {:induction false} RowsHoldUnderInterleaving(states: seq<Database>, run: seq<Statement>, n: nat)
    requires Behaviour(states, run) && n <= |run| && TableHolds(states[0].table) && ValidInputs(run)
    ensures TableHolds(states[n].table)
    decreases n
  {
    if n > 0 {
      RowsHoldUnderInterleaving(states, run, n - 1);
      assert StepAt(states, run, n - 1);
      IntendedRowsHold(states[n - 1].table, states[n - 1].pending, run[n - 1]);
    }
  }

  lemma {:induction false} IndexHolds(states: seq<Database>, run: seq<Statement>, n: nat)
    requires Behaviour(states, run) && n <= |run| && ActiveUnique(states[0].table)
    ensures ActiveUnique(states[n].table)
    decreases n
  {
    if n > 0 {
      IndexHolds(states, run, n - 1);
      assert StepAt(states, run, n - 1);
    }
  }

  // ---------------------------------------------------------------- calls in a run

  /** The second and last statement of a call. */
  predicate Ends(s: Statement, call: nat) {
    (s.Write? || s.ResolveRow?) && s.call == call
  }

  /** The statement at `j` is the SELECT of the call that writes at `k`. */
  ghost predicate ReadsFor(run: seq<Statement>, j: nat, k: nat)
    requires k < |run|
  {
    && j < k && run[j].Select? && Ends(run[k], run[j].call)
    && forall m | j < m < k :: !Ends(run[m], run[j].call)
  }

  lemma PendingNext(states: seq<Database>, run: seq<Statement>, n: nat)
    requires Behaviour(states, run) && n < |run|
    ensures states[n + 1].pending == PendingAfter(states[n].pending, run[n])
    ensures run[n].Select? ==> run[n].call !in states[n].pending && Finds(states[n].table, run[n].read)
    ensures run[n].Write? || run[n].ResolveRow? ==> run[n].call in states[n].pending
  {
    assert StepAt(states, run, n);
  }

  /** A pending read was made by the last SELECT of its call, which has not written since. */
  lemma {:induction false} PendingWasRead(states: seq<Database>, run: seq<Statement>, n: nat, call: nat) returns (j: nat)
    requires Behaviour(states, run) && states[0].pending == map[] && n <= |run| && call in states[n].pending
    ensures j < n && run[j].Select? && run[j].call == call && run[j].read == states[n].pending[call]
    ensures forall m | j < m < n :: !Ends(run[m], call)
    decreases n
  {
    PendingNext(states, run, n - 1);
    if run[n - 1].Select? && run[n - 1].call == call {
      j := n - 1;
    } else {
      j := PendingWasRead(states, run, n - 1, call);
    }
  }

  /** A read stays as it was until its call writes. */
  lemma {:induction false} ReadStaysPending(states: seq<Database>, run: seq<Statement>, j: nat, n: nat)
    requires Behaviour(states, run) && j < n <= |run| && run[j].Select?
    requires forall m | j < m < n :: !Ends(run[m], run[j].call)
    ensures run[j].call in states[n].pending && states[n].pending[run[j].call] == run[j].read
    decreases n
  {
    PendingNext(states, run, n - 1);
    if n > j + 1 { ReadStaysPending(states, run, j, n - 1); }
  }

  /** The last statement of a call goes by what its SELECT found. */
  lemma WriteGoesBy(states: seq<Database>, run: seq<Statement>, j: nat, k: nat)
    requires Behaviour(states, run) && k < |run| && ReadsFor(run, j, k)
    ensures run[k].call in states[k].pending && states[k].pending[run[k].call] == run[j].read
    ensures Finds(states[j].table, run[j].read)
  {
    ReadStaysPending(states, run, j, k);
    PendingNext(states, run, j);
  }

  lemma WriteWasRead(states: seq<Database>, run: seq<Statement>, k: nat) returns (j: nat)
    requires Behaviour(states, run) && states[0].pending == map[]
    requires k < |run| && (run[k].Write? || run[k].ResolveRow?)
    ensures ReadsFor(run, j, k)
  {
    PendingNext(states, run, k);
    j := PendingWasRead(states, run, k, run[k].call);
  }

  // ---------------------------------------------------------------- lost acknowledgements

  ghost predicate AcknowledgedFrom(states: seq<Database>, id: string, since: nat, k: nat)
    requires k < |states|
  {
    forall n | since <= n <= k :: id in states[n].table && states[n].table[id].row.state == Acknowledged
  }

  /** The statement at `k` is bad news for the row, computed from a state other than
      ACKNOWLEDGED that its call had read before position `since`. */
  ghost predicate StaleBadNews(run: seq<Statement>, id: string, since: nat, k: nat)
    requires k < |run|
  {
    && run[k].Write? && MapState(run[k].event.state) in {Open, Errored}
    && exists j: nat ::
         j < since && ReadsFor(run, j, k) && run[j].read.Read?
         && run[j].read.found.Existing? && run[j].read.found.id == id && run[j].read.found.state != Acknowledged
  }

  /** One write to an acknowledged row, in terms of what its call had read. */
  lemma WriteToAcknowledged(db: Database, s: Statement, id: string)
    requires ActiveUnique(db.table) && Enabled(db, s)
    requires id in db.table && db.table[id].row.state == Acknowledged
    ensures id in Execute(db, s).table
    ensures Execute(db, s).table[id].row.state in {Open, Errored} <==>
            && s.Write? && MapState(s.event.state) in {Open, Errored}
            && db.pending[s.call].found.Existing? && db.pending[s.call].found.id == id
            && db.pending[s.call].found.state != Acknowledged
  {
  }

  /** In any run, a row that has been acknowledged since position `since` goes back to OPEN or
      ERROR exactly when bad news is written by a call that had read the row before that
      position, in another state. Reads made since cannot undo the acknowledgement. */
  lemma AcknowledgementLostIffStale(states: seq<Database>, run: seq<Statement>, id: string, since: nat, k: nat)
    requires Behaviour(states, run) && states[0].pending == map[] && ActiveUnique(states[0].table)
    requires since <= k < |run| && AcknowledgedFrom(states, id, since, k)
    ensures id in states[k + 1].table
    ensures states[k + 1].table[id].row.state in {Open, Errored} <==> StaleBadNews(run, id, since, k)
  {
    assert StepAt(states, run, k);
    IndexHolds(states, run, k);
    WriteToAcknowledged(states[k], run[k], id);
    if run[k].Write? {
      var j := WriteWasRead(states, run, k);
      assert ReadsFor(run, j, k);
      forall i: nat | ReadsFor(run, i, k)
        ensures run[i].read == states[k].pending[run[k].call] && Finds(states[i].table, run[i].read)
      {
        WriteGoesBy(states, run, i, k);
      }
    }
  }

  /** Such a run: the event update reads an open row, the row is acknowledged, and the update
      writes OPEN. */
  lemma AcknowledgementCanBeLost(db: Database, s: Statement, id: string, actor: string, now: int) returns (states: seq<Database>)
    requires ActiveUnique(db.table) && s.Write? && s.call !in db.pending && s.event.state == "ACTIVE"
    requires Finds(db.table, Read(DedupKey(s.receiver, s.event), Existing(id, Open)))
    ensures var select := Select(s.call, Read(DedupKey(s.receiver, s.event), Existing(id, Open)));
            Behaviour(states, [select, AcknowledgeRow(id, actor, now), s])
    ensures states[0] == db && id in states[2].table && id in states[3].table
    ensures states[2].table[id].row.state == Acknowledged && states[3].table[id].row.state == Open
  {
    var run := [Select(s.call, Read(DedupKey(s.receiver, s.event), Existing(id, Open))), AcknowledgeRow(id, actor, now), s];
    var first := Execute(db, run[0]);
    var second := Execute(first, run[1]);
    states := [db, first, second, Execute(second, s)];
    AcknowledgeOpenRow(first, id, actor, now);
    assert MapState("ACTIVE") == Open by { assert ValidUpstream("ACTIVE"); MapStateOf("ACTIVE"); }
    WriteToAcknowledged(second, s, id);
    assert StepAt(states, run, 0) && StepAt(states, run, 1) && StepAt(states, run, 2);
  }

  lemma AcknowledgeOpenRow(db: Database, id: string, actor: string, now: int)
    requires ActiveUnique(db.table) && id in db.table && db.table[id].row.state == Open
    ensures Execute(db, AcknowledgeRow(id, actor, now)) == db.(table := WithRow(db.table, id, AcknowledgedRow(db.table[id].row, actor, now)))
    ensures ActiveUnique(Execute(db, AcknowledgeRow(id, actor, now)).table)
  {
  }

  // ---------------------------------------------------------------- calls one at a time

  /** Both tables hold the same rows, one for each key. */
  ghost predicate Represents(table: Table, alerts: map<string, Row>) {
    && (forall id | id in table :: table[id].row.id == id && table[id].key in alerts && alerts[table[id].key] == table[id].row)
    && forall key | key in alerts :: alerts[key].id in table && table[alerts[key].id] == Stored(key, alerts[key])
  }

  lemma UpdateRepresents(table: Table, alerts: map<string, Row>, key: string, row: Row)
    requires Represents(table, alerts) && key in alerts && row.id == alerts[key].id
    ensures Represents(table[row.id := Stored(key, row)], alerts[key := row])
  {
  }

  lemma InsertRepresents(table: Table, alerts: map<string, Row>, key: string, row: Row)
    requires Represents(table, alerts) && key !in alerts && row.id !in table
    ensures Represents(table[row.id := Stored(key, row)], alerts[key := row])
  {
  }

  lemma OneRowForEachKey(table: Table, alerts: map<string, Row>)
    requires Represents(table, alerts)
    ensures ActiveUnique(table)
  {
  }

  lemma SelectFindsTheRow(table: Table, alerts: map<string, Row>, read: Read)
    requires Represents(table, alerts) && read.Read? && Finds(table, read)
    ensures read.found == if read.key in alerts then Existing(alerts[read.key].id, alerts[read.key].state) else Missing
  {
    if read.key in alerts { assert table[alerts[read.key].id].key == read.key; }
  }

  lemma WriteAppliesEvent(db: Database, store: Store, ctx: Context, s: Statement)
    requires Represents(db.table, store.alerts)
    requires s.Write? && s.receiver == ctx.receiver && s.evidence == Evidence(s.event, ctx)
    requires Enabled(db, s) && Finds(db.table, db.pending[s.call])
    ensures Represents(Execute(db, s).table, ApplyEvent(store, ctx, s.event, s.stamp, s.reconciled).alerts)
  {
    var key := DedupKey(s.receiver, s.event);
    SelectFindsTheRow(db.table, store.alerts, db.pending[s.call]);
    var row := if key in store.alerts then Updated(store.alerts[key], s.event, s.evidence, s.stamp, s.reconciled)
               else Inserted(s.event, s.evidence, s.receiver, s.stamp, s.reconciled);
    var table, alerts := db.table[row.id := Stored(key, row)], store.alerts[key := row];
    assert Represents(table, alerts) by {
      if key in store.alerts { UpdateRepresents(db.table, store.alerts, key, row); }
      else { InsertRepresents(db.table, store.alerts, key, row); }
    }
    OneRowForEachKey(table, alerts);
  }

  /** With one row for each key, a SELECT followed at once by its write is `ApplyEvent`. */
  lemma AdjacentStatementsAreApplyEvent(db: Database, store: Store, ctx: Context, read: Read, s: Statement)
    requires Represents(db.table, store.alerts)
    requires s.Write? && s.receiver == ctx.receiver && s.evidence == Evidence(s.event, ctx)
    requires Enabled(db, Select(s.call, read)) && Enabled(Execute(db, Select(s.call, read)), s)
    ensures var after := Execute(Execute(db, Select(s.call, read)), s);
            && Represents(after.table, ApplyEvent(store, ctx, s.event, s.stamp, s.reconciled).alerts)
            && after.pending == db.pending
  {
    OneRowForEachKey(db.table, store.alerts);
    var selected := Execute(db, Select(s.call, read));
    assert selected == Database(db.table, db.pending[s.call := read]);
    WriteAppliesEvent(selected, store, ctx, s);
  }

  /** The statement of an acknowledgement is `Acknowledge`, refusals included. */
  lemma AcknowledgeRowIsAcknowledge(db: Database, store: Store, key: string, actor: string, now: int)
    requires Represents(db.table, store.alerts) && key in store.alerts
    ensures var after := Execute(db, AcknowledgeRow(store.alerts[key].id, actor, now));
            match Acknowledge(store, key, actor, now)
            case Ok(s) => Represents(after.table, s.alerts)
            case Err(_) => after == db
  {
    var row := store.alerts[key];
    OneRowForEachKey(db.table, store.alerts);
    if row.state == Open || row.state == Errored {
      var changed := AcknowledgedRow(row, actor, now);
      UpdateRepresents(db.table, store.alerts, key, changed);
      OneRowForEachKey(db.table[row.id := Stored(key, changed)], store.alerts[key := changed]);
    }
  }

  /** The check of a resolution passes exactly when `Resolve` does not refuse the alert as active
      upstream, and the check followed at once by the UPDATE is `Resolve`. */
  lemma CheckedResolveIsResolve(db: Database, store: Store, call: nat, key: string, actor: string, now: int)
    requires Represents(db.table, store.alerts) && key in store.alerts && call !in db.pending
    ensures var id := store.alerts[key].id;
            Enabled(db, Select(call, Checked(id))) <==> Resolve(store, key, actor, now) != Err(ExternalResolve)
    ensures var id := store.alerts[key].id;
            var checked := Execute(db, Select(call, Checked(id)));
            && Enabled(checked, ResolveRow(call, id, now))
            && var after := Execute(checked, ResolveRow(call, id, now));
            match Resolve(store, key, actor, now)
            case Ok(s) => Represents(after.table, s.alerts)
            case Err(NotFound) => after.table == db.table
            case Err(ExternalResolve) => true
  {
    var row := store.alerts[key];
    OneRowForEachKey(db.table, store.alerts);
    var changed := ResolvedRow(row, now);
    UpdateRepresents(db.table, store.alerts, key, changed);
    OneRowForEachKey(db.table[row.id := Stored(key, changed)], store.alerts[key := changed]);
    var checked := Execute(db, Select(call, Checked(row.id)));
    assert checked == Database(db.table, db.pending[call := Checked(row.id)]);
  }
}
