/** The migration runner: it walks the sorted file names, skips the recorded ones, and runs each
    other one in a transaction of its own that also records it. A run may stop at any point. */
module Migrations {
  import opened Text

  /** What interrupts the work on one file. */
  datatype Fault =
    | NoFault
    | StopsBefore   // check, read, begin, execute, record or commit fails, or the process dies: rolled back
    | StopsAfter    // the commit takes effect but the run ends without learning of it

  /** `executed` is the history of committed migration scripts, `recorded` the version table. */
  datatype Store = Store(executed: seq<string>, recorded: set<string>)

  const FRESH := Store([], {})

  function Committed(db: Store, name: string): Store {
    Store(db.executed + [name], db.recorded + {name})
  }

  /** A run over `names`, each with its fault: the store it leaves, and whether it returned nil. */
  function Up(db: Store, names: seq<string>, faults: seq<Fault>): (Store, bool)
    requires |faults| == |names|
    decreases |names|
  {
    if names == [] then (db, true)
    else if faults[0] == StopsBefore then (db, false)
    else
      var next := if names[0] in db.recorded then db else Committed(db, names[0]);
      if faults[0] == StopsAfter then (next, false) else Up(next, names[1..], faults[1..])
  }

  class Database {
    var executed: seq<string>
    var recorded: set<string>

    method ApplyPending(names: seq<string>, faults: seq<Fault>) returns (ok: bool)
      requires |faults| == |names|
      modifies this
      ensures (Store(executed, recorded), ok) == Up(old(Store(executed, recorded)), names, faults)
    {
      for n := 0 to |names|
        invariant Up(Store(executed, recorded), names[n..], faults[n..])
                  == Up(old(Store(executed, recorded)), names, faults)
      {
        assert names[n..][1..] == names[n + 1..] && faults[n..][1..] == faults[n + 1..];
        var name := names[n];
        if faults[n] == StopsBefore { return false; }
        var applied := name in recorded;
        if !applied {
          executed, recorded := executed + [name], recorded + {name};
        }
        if faults[n] == StopsAfter { return false; }
      }
      return true;
    }
  }

  // ---------------------------------------------------------------- one run

  ghost predicate Consistent(db: Store) {
    && (forall i, j :: 0 <= i < j < |db.executed| ==> db.executed[i] != db.executed[j])
    && (forall v :: v in db.recorded <==> v in db.executed)
  }

  /** A run only adds to the history; what it adds are names that were not recorded, in the
      order of the names; and a run that returns nil leaves no name unrecorded. */
  lemma {:induction false} RunAppends(db: Store, names: seq<string>, faults: seq<Fault>) returns (added: seq<string>)
    requires |faults| == |names| && Consistent(db)
    ensures var (after, ok) := Up(db, names, faults);
            && Consistent(after)
            && after.executed == db.executed + added
            && (forall v | v in added :: v in names && v !in db.recorded)
            && (ok ==> forall v | v in names :: v in after.recorded)
            && (StrictlyAscending(names) ==> StrictlyAscending(added))
    decreases |names|
  {
    added := [];
    if names == [] || faults[0] == StopsBefore {
      assert db.executed == db.executed + added;
    } else {
      var first := if names[0] in db.recorded then [] else [names[0]];
      var next := if names[0] in db.recorded then db else Committed(db, names[0]);
      assert next.executed == db.executed + first;
      if faults[0] == StopsAfter {
        added := first;
      } else {
        var rest := RunAppends(next, names[1..], faults[1..]);
        added := first + rest;
        assert Up(db, names, faults).0.executed == db.executed + added;
        if StrictlyAscending(names) {
          forall i, j | 0 <= i < j < |added| ensures StringLess(added[i], added[j]) {
            if i < |first| {
              assert j >= |first| ==> rest[j - |first|] in names[1..];
            } else {
              assert added[i] == rest[i - |first|] && added[j] == rest[j - |first|];
            }
          }
        }
      }
    }
  }

  /** How far a run gets: past every file until the first fault, and past that file too if its
      transaction had been committed. */
  function Reached(faults: seq<Fault>): nat {
    if faults == [] || faults[0] == StopsBefore then 0
    else if faults[0] == StopsAfter then 1
    else 1 + Reached(faults[1..])
  }

  /** A run does exactly this: it records the files it reaches, each executed if it was not
      recorded yet, and it returns nil exactly when nothing interrupts it. */
  lemma {:induction false} RunIs(db: Store, names: seq<string>, faults: seq<Fault>)
    requires |faults| == |names|
    ensures Reached(faults) <= |names|
    ensures var (after, ok) := Up(db, names, faults);
            && (ok <==> forall i | 0 <= i < |faults| :: faults[i] == NoFault)
            && (forall v :: v in after.recorded <==> v in db.recorded || v in names[..Reached(faults)])
            && (forall v :: v in after.executed <==> v in db.executed || (v in names[..Reached(faults)] && v !in db.recorded))
    decreases |names|
  {
    if names != [] && faults[0] != StopsBefore {
      var next := if names[0] in db.recorded then db else Committed(db, names[0]);
      if faults[0] == NoFault {
        RunIs(next, names[1..], faults[1..]);
        assert names[..Reached(faults)] == [names[0]] + names[1..][..Reached(faults[1..])];
        assert (forall i | 0 <= i < |faults| :: faults[i] == NoFault) <==>
               (forall i | 0 <= i < |faults[1..]| :: faults[1..][i] == NoFault) by {
          assert forall i | 0 <= i < |faults[1..]| :: faults[1..][i] == faults[i + 1];
          assert forall i | 1 <= i < |faults| :: faults[i] == faults[1..][i - 1];
        }
      } else {
        assert names[..1] == [names[0]];
      }
    }
  }

  // ---------------------------------------------------------------- any number of runs

  /** One run: the file names embedded in the binary that made it, and what went wrong. */
  datatype Run = Run(names: seq<string>, faults: seq<Fault>)

  ghost predicate WellFormed(runs: seq<Run>) {
    forall i | 0 <= i < |runs| :: |runs[i].names| == |runs[i].faults|
  }

  function AfterRuns(db: Store, runs: seq<Run>): Store
    requires forall i | 0 <= i < |runs| :: |runs[i].names| == |runs[i].faults|
    decreases |runs|
  {
    if runs == [] then db else AfterRuns(Up(db, runs[0].names, runs[0].faults).0, runs[1..])
  }

  /** Exactly once: whatever files the successive binaries carry and wherever their runs stop,
      no script is ever committed twice, and the version table lists exactly the committed ones. */
  lemma {:induction false} ExactlyOnce(db: Store, runs: seq<Run>)
    requires WellFormed(runs) && Consistent(db)
    ensures Consistent(AfterRuns(db, runs))
    ensures db.executed <= AfterRuns(db, runs).executed
    decreases |runs|
  {
    if runs != [] {
      var added := RunAppends(db, runs[0].names, runs[0].faults);
      ExactlyOnce(Up(db, runs[0].names, runs[0].faults).0, runs[1..]);
    }
  }

  ghost predicate SameFiles(runs: seq<Run>, names: seq<string>) {
    forall i | 0 <= i < |runs| :: runs[i].names == names && |runs[i].faults| == |names|
  }

  /** Resumption: as long as the set of files stays the same, the history is at all times a
      prefix of the sorted names, so every script ran after all of its predecessors. */
  lemma {:induction false} HistoryIsPrefix(db: Store, names: seq<string>, runs: seq<Run>)
    requires SameFiles(runs, names) && StrictlyAscending(names)
    requires Consistent(db) && db.executed <= names
    ensures Consistent(AfterRuns(db, runs)) && AfterRuns(db, runs).executed <= names
    decreases |runs|
  {
    if runs != [] {
      var added := RunAppends(db, names, runs[0].faults);
      PrefixAfterRun(db, names, 0, runs[0].faults);
      assert names[0..] == names && runs[0].faults[0..] == runs[0].faults;
      HistoryIsPrefix(Up(db, names, runs[0].faults).0, names, runs[1..]);
    }
  }

  lemma {:induction false} PrefixAfterRun(db: Store, names: seq<string>, n: nat, faults: seq<Fault>)
    requires n <= |names| && |faults| == |names| - n && StrictlyAscending(names)
    requires Consistent(db) && db.executed <= names && n <= |db.executed|
    ensures Up(db, names[n..], faults).0.executed <= names
    ensures Up(db, names[n..], faults).1 ==> Up(db, names[n..], faults).0.executed == names
    decreases |names| - n
  {
    if n < |names| && faults[0] != StopsBefore {
      assert names[n..][1..] == names[n + 1..];
      if n < |db.executed| {
        assert db.executed[n] == names[n];
        PrefixAfterRun(db, names, n + 1, faults[1..]);
      } else {
        assert names[n] !in db.executed by {
          forall i | 0 <= i < |db.executed| ensures db.executed[i] != names[n] {
            StringLessTotal(names[i], names[n]);
          }
        }
        assert names[..n + 1] == names[..n] + [names[n]];
        PrefixAfterRun(Committed(db, names[n]), names, n + 1, faults[1..]);
      }
    }
  }

  /** After a run that returns nil the history is the whole list, however many interrupted
      runs came before it. */
  lemma CompleteAfterSuccess(names: seq<string>, runs: seq<Run>, last: seq<Fault>)
    requires SameFiles(runs, names) && StrictlyAscending(names) && |last| == |names|
    ensures WellFormed(runs)
    ensures Up(AfterRuns(FRESH, runs), names, last).1 ==> Up(AfterRuns(FRESH, runs), names, last).0.executed == names
  {
    HistoryIsPrefix(FRESH, names, runs);
    PrefixAfterRun(AfterRuns(FRESH, runs), names, 0, last);
    assert names[0..] == names;
  }
}
