/** What goes wrong between the statements of the alert service when calls overlap, and exactly
    when: manual resolutions overtaken by events, and keys that get a second row. */
module AlertRaces {
  import opened Outcomes
  import opened Alerts
  import opened AlertLifecycle
  import opened AlertStatements

  // ---------------------------------------------------------------- rows in a run

  /** The statement is an event update of this row that the index lets pass. */
  ghost predicate Updates(db: Database, s: Statement, id: string) {
    && s.Write? && s.call in db.pending && db.pending[s.call].Read?
    && db.pending[s.call].found.Existing? && db.pending[s.call].found.id == id
    && ActiveUnique(Intended(db.table, db.pending, s))
  }

  ghost predicate UpdatesAt(states: seq<Database>, run: seq<Statement>, n: nat, id: string)
    requires n < |run| && n < |states|
  {
    Updates(states[n], run[n], id)
  }

  /** A row stays, under its key, and hears of the upstream state from its updates only. */
  lemma StatementOnRow(states: seq<Database>, run: seq<Statement>, n: nat, id: string)
    requires Behaviour(states, run) && n < |run| && id in states[n].table
    ensures id in states[n + 1].table && states[n + 1].table[id].key == states[n].table[id].key
    ensures states[n + 1].table[id].row.createdAt == states[n].table[id].row.createdAt
    ensures states[n + 1].table[id].row.upstream ==
            if UpdatesAt(states, run, n, id) then run[n].event.state else states[n].table[id].row.upstream
  {
    assert StepAt(states, run, n);
  }

  lemma {:induction false} RowStays(states: seq<Database>, run: seq<Statement>, id: string, j: nat, n: nat)
    requires Behaviour(states, run) && j <= n <= |run| && id in states[j].table
    ensures id in states[n].table && states[n].table[id].key == states[j].table[id].key
    decreases n
  {
    if n > j {
      RowStays(states, run, id, j, n - 1);
      StatementOnRow(states, run, n - 1, id);
    }
  }

  // ---------------------------------------------------------------- overtaken resolutions

  /** The statement at `m` is the last event update of the row before `n`, and its event says
      that the alert is active upstream. */
  ghost predicate LastHeardLive(states: seq<Database>, run: seq<Statement>, id: string, m: nat, n: nat)
    requires m < n <= |run| && n <= |states|
  {
    && UpdatesAt(states, run, m, id) && run[m].Write? && Live(run[m].event.state)
    && forall i: nat | m < i < n :: !UpdatesAt(states, run, i, id)
  }

  /** A row that was not active upstream at `j` is so at `n` exactly when the last event update
      between said so. */
  lemma {:induction false} LiveIffHeard(states: seq<Database>, run: seq<Statement>, id: string, j: nat, n: nat)
    requires Behaviour(states, run) && j <= n <= |run|
    requires id in states[j].table && !Live(states[j].table[id].row.upstream)
    ensures id in states[n].table
    ensures Live(states[n].table[id].row.upstream) <==> exists m: nat :: j <= m < n && LastHeardLive(states, run, id, m, n)
    decreases n
  {
    if n > j {
      var last := n - 1;
      LiveIffHeard(states, run, id, j, last);
      StatementOnRow(states, run, last, id);
      if UpdatesAt(states, run, last, id) {
        assert Live(run[last].event.state) ==> LastHeardLive(states, run, id, last, n);
      } else {
        forall m: nat | j <= m < last
          ensures LastHeardLive(states, run, id, m, last) <==> LastHeardLive(states, run, id, m, n)
        {
        }
      }
    }
  }

  /** A resolved row of an alert that is active upstream. */
  ghost predicate Stranded(table: Table, id: string) {
    id in table && table[id].row.state == Resolved && Live(table[id].row.upstream)
  }

  lemma ResolveStatement(db: Database, s: Statement)
    requires ActiveUnique(db.table) && s.ResolveRow? && s.id in db.table
    ensures s.id in Execute(db, s).table
    ensures Execute(db, s).table[s.id].row.state == Resolved
    ensures Execute(db, s).table[s.id].row.upstream == db.table[s.id].row.upstream
  {
    assert ActiveUnique(Intended(db.table, db.pending, s));
  }

  /** A manual resolution, checked at `j` and done at `k`, resolves the row; it leaves an alert
      that is active upstream exactly when an event that says so updated the row after the
      check and was the last one before the resolution. */
  lemma ResolutionOvertakenIff(states: seq<Database>, run: seq<Statement>, j: nat, k: nat)
    requires Behaviour(states, run) && ActiveUnique(states[0].table)
    requires k < |run| && ReadsFor(run, j, k) && run[k].ResolveRow?
    ensures run[k].id in states[k + 1].table && states[k + 1].table[run[k].id].row.state == Resolved
    ensures Stranded(states[k + 1].table, run[k].id) <==>
            exists m: nat :: j < m < k && LastHeardLive(states, run, run[k].id, m, k)
  {
    var id := run[k].id;
    WriteGoesBy(states, run, j, k);
    assert StepAt(states, run, k);
    LiveIffHeard(states, run, id, j, k);
    IndexHolds(states, run, k);
    ResolveStatement(states[k], run[k]);
    assert !UpdatesAt(states, run, j, id);
  }

  /** Only a manual resolution makes a row stranded. */
  lemma StrandedByResolution(db: Database, s: Statement, id: string)
    requires Enabled(db, s) && (s.Write? ==> ValidUpstream(s.event.state))
    requires !Stranded(db.table, id) && Stranded(Execute(db, s).table, id)
    ensures s.ResolveRow? && s.id == id
  {
    if s.Write? { MapStateOf(s.event.state); }
  }

  /** In a run that starts without stranded rows, whenever a row is stranded a manual resolution
      of it has been overtaken. */
  lemma {:induction false} StrandedWasOvertaken(states: seq<Database>, run: seq<Statement>, id: string, n: nat)
      returns (j: nat, m: nat, k: nat)
    requires Behaviour(states, run) && states[0].pending == map[] && ActiveUnique(states[0].table) && ValidInputs(run)
    requires !Stranded(states[0].table, id) && n <= |run| && Stranded(states[n].table, id)
    ensures j < m < k < n && ReadsFor(run, j, k) && run[k].ResolveRow? && run[k].id == id
    ensures LastHeardLive(states, run, id, m, k)
    decreases n
  {
    k := n - 1;
    if Stranded(states[k].table, id) {
      j, m, k := StrandedWasOvertaken(states, run, id, k);
    } else {
      assert StepAt(states, run, k);
      StrandedByResolution(states[k], run[k], id);
      j := WriteWasRead(states, run, k);
      ResolutionOvertakenIff(states, run, j, k);
      m :| j < m < k && LastHeardLive(states, run, id, m, k);
    }
  }

  ghost predicate OneRowPerKey(table: Table) {
    forall a, b | a in table && b in table && table[a].key == table[b].key :: a == b
  }

  /** Such a run: the resolution checks a row in ERROR, an event reads it and writes ACTIVE, and
      the resolution resolves it. */
  lemma ResolutionCanBeOvertaken(db: Database, s: Statement, call: nat, id: string, now: int) returns (states: seq<Database>)
    requires OneRowPerKey(db.table) && id in db.table && db.table[id].row.state == Errored && db.table[id].row.upstream == "ERROR"
    requires s.Write? && call !in db.pending && call != s.call && s.call !in db.pending
    requires s.event.state == "ACTIVE" && DedupKey(s.receiver, s.event) == db.table[id].key
    ensures var read := Read(db.table[id].key, Existing(id, Errored));
            Behaviour(states, [Select(call, Checked(id)), Select(s.call, read), s, ResolveRow(call, id, now)])
    ensures states[0] == db && Stranded(states[4].table, id)
  {
    var read := Read(db.table[id].key, Existing(id, Errored));
    states := TwoReads(db, call, Checked(id), s.call, read);
    UpdateToOpen(states[2], s, id);
    ResolveStatement(Execute(states[2], s), ResolveRow(call, id, now));
    states := ThenTwo(states, Select(call, Checked(id)), Select(s.call, read), s, ResolveRow(call, id, now));
  }

  /** A run of two statements goes on with two more that are enabled. */
  lemma ThenTwo(states: seq<Database>, a: Statement, b: Statement, c: Statement, d: Statement) returns (longer: seq<Database>)
    requires Behaviour(states, [a, b])
    requires Enabled(states[2], c) && Enabled(Execute(states[2], c), d)
    ensures Behaviour(longer, [a, b, c, d])
    ensures longer[0] == states[0] && longer[4] == Execute(Execute(states[2], c), d)
  {
    longer := ThenOne(states, [a, b], c);
    longer := ThenOne(longer, [a, b] + [c], d);
    assert [a, b] + [c] + [d] == [a, b, c, d];
  }

  lemma ThenOne(states: seq<Database>, run: seq<Statement>, s: Statement) returns (longer: seq<Database>)
    requires Behaviour(states, run) && Enabled(states[|run|], s)
    ensures longer == states + [Execute(states[|run|], s)] && Behaviour(longer, run + [s])
  {
    longer := states + [Execute(states[|run|], s)];
    forall n: nat | n < |run| + 1 ensures StepAt(longer, run + [s], n) {
      if n < |run| { assert StepAt(states, run, n); }
    }
  }

  /** Two calls read one after the other. */
  lemma TwoReads(db: Database, call: nat, read: Read, otherCall: nat, otherRead: Read) returns (states: seq<Database>)
    requires OneRowPerKey(db.table) && Finds(db.table, read) && Finds(db.table, otherRead)
    requires call !in db.pending && otherCall !in db.pending && call != otherCall
    ensures Behaviour(states, [Select(call, read), Select(otherCall, otherRead)]) && states[0] == db
    ensures states[2] == db.(pending := db.pending[call := read][otherCall := otherRead])
  {
    var run := [Select(call, read), Select(otherCall, otherRead)];
    var one := db.(pending := db.pending[call := read]);
    states := [db, one, one.(pending := one.pending[otherCall := otherRead])];
    SelectStep(db, call, read);
    SelectStep(one, otherCall, otherRead);
    assert StepAt(states, run, 0) && StepAt(states, run, 1);
  }

  lemma SelectStep(db: Database, call: nat, read: Read)
    requires OneRowPerKey(db.table)
    ensures Execute(db, Select(call, read)) == db.(pending := db.pending[call := read])
  {
  }

  lemma UpdateToOpen(db: Database, s: Statement, id: string)
    requires OneRowPerKey(db.table) && Enabled(db, s) && id in db.table
    requires s.Write? && s.event.state == "ACTIVE" && db.pending[s.call].found == Existing(id, Errored)
    ensures var table := Execute(db, s).table;
            id in table && table[id].row.upstream == "ACTIVE" && ActiveUnique(table)
  {
    NoInsertKeepsKeys(db, s);
    assert ActiveUnique(Intended(db.table, db.pending, s));
  }

  // ---------------------------------------------------------------- second rows

  /** States that the unique index covers. */
  predicate Indexed(state: State) {
    state == Open || state == Acknowledged
  }

  /** The statement inserts a row although the key has one by now, and the index lets it. */
  ghost predicate InsertsBeside(db: Database, s: Statement, id: string) {
    && s.Write? && s.call in db.pending && db.pending[s.call].Read? && db.pending[s.call].found.Missing?
    && id in db.table && db.table[id].key == DedupKey(s.receiver, s.event)
    && !(Indexed(db.table[id].row.state) && Indexed(NextState(None, s.event.state)))
  }

  /** Statements other than inserts leave every row its key. */
  lemma NoInsertKeepsKeys(db: Database, s: Statement)
    requires Enabled(db, s) && !(s.Write? && db.pending[s.call].found.Missing?)
    ensures Execute(db, s).table.Keys == db.table.Keys
    ensures forall id | id in db.table :: Execute(db, s).table[id].key == db.table[id].key
  {
  }

  /** One more row: when the index lets it in, and when its key has it alone. */
  lemma IndexAdmits(table: Table, id: string, stored: Stored)
    requires OneRowPerKey(table) && id !in table
    ensures ActiveUnique(table[id := stored]) <==>
            forall other | other in table && table[other].key == stored.key ::
              !(Indexed(table[other].row.state) && Indexed(stored.row.state))
  {
    var after := table[id := stored];
    if other :| other in table && table[other].key == stored.key && Indexed(table[other].row.state) && Indexed(stored.row.state) {
      assert after[other].key == after[id].key;
    }
  }

  lemma AloneIff(table: Table, id: string, stored: Stored)
    requires OneRowPerKey(table) && id !in table
    ensures OneRowPerKey(table[id := stored]) <==> forall other | other in table :: table[other].key != stored.key
  {
    var after := table[id := stored];
    if other :| other in table && table[other].key == stored.key {
      assert after[other].key == after[id].key;
    }
  }

  /** From one row per key, an enabled statement gives a key a second row exactly when it inserts
      beside a row that the key has got meanwhile and not both are open or acknowledged. */
  lemma SecondRowIff(db: Database, s: Statement)
    requires OneRowPerKey(db.table) && Enabled(db, s)
    ensures !OneRowPerKey(Execute(db, s).table) <==> exists id :: InsertsBeside(db, s, id)
  {
    if s.Write? && db.pending[s.call].found.Missing? {
      var key := DedupKey(s.receiver, s.event);
      var stored := Stored(key, Inserted(s.event, s.evidence, s.receiver, s.stamp, s.reconciled));
      IndexAdmits(db.table, s.stamp.newId, stored);
      AloneIff(db.table, s.stamp.newId, stored);
      assert Execute(db, s).table == Committed(db.table, db.table[s.stamp.newId := stored]);
      assert stored.row.state == NextState(None, s.event.state);
      if id :| id in db.table && db.table[id].key == key {
        assert forall other | other in db.table && db.table[other].key == key :: other == id;
        assert InsertsBeside(db, s, id) <==> !(Indexed(db.table[id].row.state) && Indexed(stored.row.state));
      }
    } else {
      NoInsertKeepsKeys(db, s);
    }
  }

  /** The statement at `m` inserted the row. */
  ghost predicate InsertedAt(states: seq<Database>, run: seq<Statement>, id: string, m: nat)
    requires m < |run| && |states| == |run| + 1
  {
    run[m].Write? && run[m].stamp.newId == id && id !in states[m].table && id in states[m + 1].table
  }

  lemma {:induction false} RowWasInserted(states: seq<Database>, run: seq<Statement>, id: string, j: nat, n: nat) returns (m: nat)
    requires Behaviour(states, run) && j <= n <= |run| && id !in states[j].table && id in states[n].table
    ensures j <= m < n && InsertedAt(states, run, id, m)
    decreases n
  {
    m := n - 1;
    if id in states[m].table {
      m := RowWasInserted(states, run, id, j, m);
    } else {
      assert StepAt(states, run, m);
    }
  }

  /** The call that writes at `k` found no row for its key, and a row of that key was inserted
      after it had looked; not both are open or acknowledged when it inserts its own. */
  ghost predicate RacedInsert(states: seq<Database>, run: seq<Statement>, k: nat, j: nat, m: nat, id: string)
    requires k < |run| && |states| == |run| + 1
  {
    && ReadsFor(run, j, k) && run[k].Write? && run[j].read.Read? && run[j].read.found.Missing?
    && j < m < k && InsertedAt(states, run, id, m)
    && id in states[k].table && states[k].table[id].key == DedupKey(run[k].receiver, run[k].event)
    && !(Indexed(states[k].table[id].row.state) && Indexed(NextState(None, run[k].event.state)))
  }

  /** In any run, the statement at `k` gives a key its second row exactly when it is the INSERT of
      a call whose SELECT was overtaken by another INSERT of the key, and the index lets it. */
  lemma SecondRowIffRaced(states: seq<Database>, run: seq<Statement>, k: nat)
    requires Behaviour(states, run) && states[0].pending == map[] && k < |run| && OneRowPerKey(states[k].table)
    ensures !OneRowPerKey(states[k + 1].table) <==> exists j: nat, m: nat, id :: RacedInsert(states, run, k, j, m, id)
  {
    assert StepAt(states, run, k);
    SecondRowIff(states[k], run[k]);
    if id :| InsertsBeside(states[k], run[k], id) {
      var j, m := BesideWasRaced(states, run, k, id);
    }
    if j: nat, m: nat, id :| RacedInsert(states, run, k, j, m, id) {
      WriteGoesBy(states, run, j, k);
      assert InsertsBeside(states[k], run[k], id);
    }
  }

  lemma WritesForKey(states: seq<Database>, run: seq<Statement>, k: nat)
    requires Behaviour(states, run) && k < |run| && run[k].Write?
    ensures run[k].call in states[k].pending && states[k].pending[run[k].call].Read?
    ensures states[k].pending[run[k].call].key == DedupKey(run[k].receiver, run[k].event)
  {
    assert StepAt(states, run, k);
  }

  lemma BesideWasRaced(states: seq<Database>, run: seq<Statement>, k: nat, id: string) returns (j: nat, m: nat)
    requires Behaviour(states, run) && states[0].pending == map[] && k < |run|
    requires InsertsBeside(states[k], run[k], id)
    ensures RacedInsert(states, run, k, j, m, id)
  {
    WritesForKey(states, run, k);
    j := WriteWasRead(states, run, k);
    WriteGoesBy(states, run, j, k);
    if id in states[j].table { RowStays(states, run, id, j, k); }
    m := RowWasInserted(states, run, id, j, k);
  }

  /** Such runs: from any table without the key, two calls find no row and then both write; the
      key gets two rows exactly unless both are to be open or acknowledged. */
  lemma RacingInserts(db: Database, first: Statement, second: Statement) returns (states: seq<Database>)
    requires OneRowPerKey(db.table) && first.Write? && second.Write?
    requires first.call != second.call && first.call !in db.pending && second.call !in db.pending
    requires first.stamp.newId != second.stamp.newId && first.stamp.newId !in db.table && second.stamp.newId !in db.table
    requires DedupKey(first.receiver, first.event) == DedupKey(second.receiver, second.event)
    requires Finds(db.table, Read(DedupKey(first.receiver, first.event), Missing))
    ensures var read := Read(DedupKey(first.receiver, first.event), Missing);
            Behaviour(states, [Select(first.call, read), Select(second.call, read), first, second])
    ensures states[0] == db
    ensures !OneRowPerKey(states[4].table) <==>
            !(Indexed(NextState(None, first.event.state)) && Indexed(NextState(None, second.event.state)))
  {
    var read := Read(DedupKey(first.receiver, first.event), Missing);
    states := TwoReads(db, first.call, read, second.call, read);
    FirstInsert(states[2], first);
    var written := Execute(states[2], first);
    SecondInsert(written, second, first.stamp.newId);
    states := ThenTwo(states, Select(first.call, read), Select(second.call, read), first, second);
  }

  lemma SecondInsert(db: Database, s: Statement, id: string)
    requires OneRowPerKey(db.table) && Enabled(db, s) && s.Write? && db.pending[s.call].found.Missing?
    requires id in db.table && db.table[id].key == DedupKey(s.receiver, s.event)
    ensures !OneRowPerKey(Execute(db, s).table) <==>
            !(Indexed(db.table[id].row.state) && Indexed(NextState(None, s.event.state)))
  {
    SecondRowIff(db, s);
    assert InsertsBeside(db, s, id) <==> !(Indexed(db.table[id].row.state) && Indexed(NextState(None, s.event.state)));
    assert forall other :: InsertsBeside(db, s, other) ==> other == id;
  }

  lemma FirstInsert(db: Database, s: Statement)
    requires OneRowPerKey(db.table) && Enabled(db, s) && s.Write?
    requires db.pending[s.call].found.Missing? && Finds(db.table, db.pending[s.call])
    ensures Execute(db, s) == Database(Inserting(db.table, s), db.pending - {s.call})
    ensures OneRowPerKey(Inserting(db.table, s)) && Inserting(db.table, s)[s.stamp.newId].row.state == NextState(None, s.event.state)
  {
    IndexAdmits(db.table, s.stamp.newId, Inserting(db.table, s)[s.stamp.newId]);
    AloneIff(db.table, s.stamp.newId, Inserting(db.table, s)[s.stamp.newId]);
  }

  // ---------------------------------------------------------------- the older of two rows

  /** No call has read this row and is about to write to it. */
  ghost predicate Unread(pending: map<nat, Read>, id: string) {
    forall call | call in pending && pending[call].Read? && pending[call].found.Existing? :: pending[call].found.id != id
  }

  /** Of two rows with one key, the one created first is never found again: after a second row has
      appeared, events update the newer row only, and the older one hears nothing more. */
  lemma {:induction false} OlderRowHearsNothing(states: seq<Database>, run: seq<Statement>, older: string, newer: string, n: nat)
    requires Behaviour(states, run) && n <= |run| && Unread(states[0].pending, older)
    requires older in states[0].table && newer in states[0].table
    requires states[0].table[older].key == states[0].table[newer].key
    requires states[0].table[older].row.createdAt < states[0].table[newer].row.createdAt
    ensures Unread(states[n].pending, older)
    ensures older in states[n].table && newer in states[n].table && states[n].table[older].key == states[n].table[newer].key
    ensures states[n].table[older].row.createdAt < states[n].table[newer].row.createdAt
    ensures states[n].table[older].row.upstream == states[0].table[older].row.upstream
    decreases n
  {
    if n > 0 {
      OlderRowHearsNothing(states, run, older, newer, n - 1);
      StatementOnRow(states, run, n - 1, older);
      StatementOnRow(states, run, n - 1, newer);
      PendingNext(states, run, n - 1);
    }
  }
}
