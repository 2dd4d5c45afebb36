/** The AI service's concurrency gate: `acquire` pushes a token into a buffered channel, then
    reads the channel's length, then keeps or withdraws the token; the deferred release
    receives one. Push, length read and receive are separate steps, so calls interleave
    freely; a state machine over those steps models any number of concurrent callers. */
module ConcurrencyGate {

  const CAPACITY: nat := 32

  /** Where one caller stands. `limit` is its own clamped limit. */
  datatype Phase =
    | Trying(limit: nat)       // at the first select, about to push or give up
    | Pushed(limit: nat)       // token pushed, length not yet read
    | Withdrawing(limit: nat)  // length read above the limit, token not yet taken back
    | Waiting(limit: nat)      // token taken back, 25 ms timer running
    | Holding(limit: nat)      // acquire returned nil, deferred release pending
    | Cancelled                // acquire returned ctx.Err()
    | Released                 // deferred release done
  {
    /** The caller has a token of its own in the channel. */
    predicate OwnsToken() { Pushed? || Withdrawing? || Holding? }
  }

  datatype Gate = Gate(length: nat, callers: map<nat, Phase>)

  /** The limit `acquire` works with. */
  function ClampLimit(limit: int): (r: nat)
    ensures limit < 1 ==> r == 1
    ensures limit > 32 ==> r == 32
    ensures 1 <= limit <= 32 ==> r == limit
  {
    var low := if limit < 1 then 1 else limit;
    if low > CAPACITY then CAPACITY else low
  }

  datatype Action =
    | Enter(caller: nat, configured: int)
    | Push(caller: nat)
    | ReadLength(caller: nat)
    | Withdraw(caller: nat)
    | TimerFires(caller: nat)
    | Cancel(caller: nat)
    | Release(caller: nat)

  /** Whether the action can happen now. A push waits while the buffer is full and a
      receive waits while it is empty. */
  predicate Enabled(g: Gate, a: Action) {
    match a
    case Enter(c, _) => c !in g.callers
    case Push(c) => c in g.callers && g.callers[c].Trying? && g.length < CAPACITY
    case ReadLength(c) => c in g.callers && g.callers[c].Pushed?
    case Withdraw(c) => c in g.callers && g.callers[c].Withdrawing? && g.length > 0
    case TimerFires(c) => c in g.callers && g.callers[c].Waiting?
    case Cancel(c) => c in g.callers && (g.callers[c].Trying? || g.callers[c].Waiting?)
    case Release(c) => c in g.callers && g.callers[c].Holding? && g.length > 0
  }

  function Step(g: Gate, a: Action): Gate
    requires Enabled(g, a)
  {
    match a
    case Enter(c, configured) => Move(g, c, g.length, Trying(ClampLimit(configured)))
    case Push(c) => Move(g, c, g.length + 1, Pushed(g.callers[c].limit))
    case ReadLength(c) =>
      var limit := g.callers[c].limit;
      Move(g, c, g.length, if g.length <= limit then Holding(limit) else Withdrawing(limit))
    case Withdraw(c) => Move(g, c, g.length - 1, Waiting(g.callers[c].limit))
    case TimerFires(c) => Move(g, c, g.length, Trying(g.callers[c].limit))
    case Cancel(c) => Move(g, c, g.length, Cancelled)
    case Release(c) => Move(g, c, g.length - 1, Released)
  }

  function Move(g: Gate, caller: nat, length: nat, phase: Phase): Gate {
    Gate(length, g.callers[caller := phase])
  }

  ghost predicate IsRun(g: Gate, actions: seq<Action>)
    decreases |actions|
  {
    actions != [] ==> Enabled(g, actions[0]) && IsRun(Step(g, actions[0]), actions[1..])
  }

  ghost function After(g: Gate, actions: seq<Action>): Gate
    requires IsRun(g, actions)
    decreases |actions|
  {
    if actions == [] then g else After(Step(g, actions[0]), actions[1..])
  }

  const EMPTY := Gate(0, map[])

  // ---------------------------------------------------------------- accounting

  ghost function TokenOwners(g: Gate): set<nat> {
    set c | c in g.callers && g.callers[c].OwnsToken()
  }

  ghost function Holders(g: Gate): set<nat> {
    set c | c in g.callers && g.callers[c].Holding?
  }

  /** Callers whose token is in the channel but whose fate is open. */
  ghost function Undecided(g: Gate): set<nat> {
    set c | c in g.callers && (g.callers[c].Pushed? || g.callers[c].Withdrawing?)
  }

  ghost predicate Limited(g: Gate, limit: nat) {
    forall c | c in g.callers && !g.callers[c].Cancelled? && !g.callers[c].Released? :: g.callers[c].limit <= limit
  }

  ghost predicate Invariant(g: Gate) {
    && g.length == |TokenOwners(g)| <= CAPACITY
    && |Holders(g)| <= |TokenOwners(g)|
  }

  lemma OwnersAreHoldersAndUndecided(g: Gate)
    ensures |TokenOwners(g)| == |Holders(g)| + |Undecided(g)|
  {
    assert TokenOwners(g) == Holders(g) + Undecided(g);
    assert Holders(g) !! Undecided(g);
  }

  lemma OwnersAfterMove(g: Gate, caller: nat, length: nat, phase: Phase)
    ensures var h := Move(g, caller, length, phase);
            && TokenOwners(h) == (if phase.OwnsToken() then TokenOwners(g) + {caller} else TokenOwners(g) - {caller})
            && Holders(h) == (if phase.Holding? then Holders(g) + {caller} else Holders(g) - {caller})
  {
  }

  lemma StepKeepsInvariant(g: Gate, a: Action)
    requires Invariant(g) && Enabled(g, a)
    ensures Invariant(Step(g, a))
  {
    var h := Step(g, a);
    OwnersAfterMove(g, a.caller, h.length, h.callers[a.caller]);
    OwnersAreHoldersAndUndecided(h);
  }

  /** The admission test is exact about the moment of admission: whoever is admitted finds the
      number of holders, itself included, within its own limit. */
  lemma AdmissionWithinOwnLimit(g: Gate, c: nat)
    requires Invariant(g) && Enabled(g, ReadLength(c))
    ensures var h := Step(g, ReadLength(c));
            && (h.callers[c].Holding? <==> |Holders(g)| + |Undecided(g)| <= g.callers[c].limit)
            && (h.callers[c].Holding? ==> |Holders(h)| <= g.callers[c].limit)
  {
    var h := Step(g, ReadLength(c));
    OwnersAfterMove(g, c, h.length, h.callers[c]);
    OwnersAreHoldersAndUndecided(g);
    OwnersAreHoldersAndUndecided(h);
  }

  /** Every state of every run from the empty gate satisfies the invariant, and with every
      caller's limit at most `limit` the holders never exceed it. */
  lemma {:induction false} GateSafety(actions: seq<Action>, limit: nat)
    requires IsRun(EMPTY, actions)
    requires forall a | a in actions && a.Enter? :: ClampLimit(a.configured) <= limit
    ensures var g := After(EMPTY, actions);
            && Invariant(g)
            && g.length == |Holders(g)| + |Undecided(g)|
            && |Holders(g)| <= limit
            && g.length <= CAPACITY
  {
    assert TokenOwners(EMPTY) == {} && Holders(EMPTY) == {};
    SafetyFrom(EMPTY, actions, limit);
    OwnersAreHoldersAndUndecided(After(EMPTY, actions));
  }

  lemma StepKeepsHolderBound(g: Gate, a: Action, limit: nat)
    requires Invariant(g) && Enabled(g, a) && Limited(g, limit) && |Holders(g)| <= limit
    requires a.Enter? ==> ClampLimit(a.configured) <= limit
    ensures Limited(Step(g, a), limit) && |Holders(Step(g, a))| <= limit
  {
    var h := Step(g, a);
    OwnersAfterMove(g, a.caller, h.length, h.callers[a.caller]);
    if a.ReadLength? { AdmissionWithinOwnLimit(g, a.caller); }
  }

  lemma {:induction false} SafetyFrom(g: Gate, actions: seq<Action>, limit: nat)
    requires IsRun(g, actions) && Invariant(g) && Limited(g, limit) && |Holders(g)| <= limit
    requires forall a | a in actions && a.Enter? :: ClampLimit(a.configured) <= limit
    ensures Invariant(After(g, actions)) && |Holders(After(g, actions))| <= limit
    decreases |actions|
  {
    if actions != [] {
      StepKeepsInvariant(g, actions[0]);
      StepKeepsHolderBound(g, actions[0], limit);
      SafetyFrom(Step(g, actions[0]), actions[1..], limit);
    }
  }

  /** Receives never block: a caller that must take a token back, to withdraw or to release,
      always finds one, because its own is still counted. */
  lemma ReceiveNeverBlocks(g: Gate, c: nat)
    requires Invariant(g) && c in g.callers
    ensures g.callers[c].Holding? ==> Enabled(g, Release(c))
    ensures g.callers[c].Withdrawing? ==> Enabled(g, Withdraw(c))
  {
    if g.callers[c].OwnsToken() {
      assert c in TokenOwners(g);
      assert TokenOwners(g) != {};
    }
  }

  /** A cancelled or released caller leaves the channel as if it had never called. */
  lemma FinishedCallersLeaveNothing(g: Gate, c: nat)
    requires Invariant(g) && c in g.callers
    requires g.callers[c].Cancelled? || g.callers[c].Released?
    ensures var h := Gate(g.length, g.callers - {c});
            && Invariant(h) && Holders(h) == Holders(g) && Undecided(h) == Undecided(g)
  {
    var h := Gate(g.length, g.callers - {c});
    assert TokenOwners(h) == TokenOwners(g);
    assert Holders(h) == Holders(g);
  }

  /** No slot is lost: when no other caller is undecided, one caller going through push and
      length read is admitted exactly if there is a holder's place left under its limit. */
  lemma LoneCallerAdmittedIffRoom(g: Gate, c: nat)
    requires Invariant(g) && c in g.callers && g.callers[c].Trying? && g.callers[c].limit <= CAPACITY
    requires Undecided(g) == {}
    ensures |Holders(g)| < g.callers[c].limit ==>
              && Enabled(g, Push(c))
              && Step(Step(g, Push(c)), ReadLength(c)).callers[c].Holding?
    ensures |Holders(g)| >= g.callers[c].limit && Enabled(g, Push(c)) ==>
              Step(Step(g, Push(c)), ReadLength(c)).callers[c].Withdrawing?
  {
    OwnersAreHoldersAndUndecided(g);
  }

  // ---------------------------------------------------------------- one caller's way

  /** What a caller can do, and when: a push needs a free place among the 32, a receive a token;
      giving up is possible while waiting to push or for the timer, and only then. */
  lemma EnabledIff(g: Gate, c: nat)
    requires Invariant(g) && c in g.callers
    ensures var phase := g.callers[c];
            && (Enabled(g, Push(c)) <==> phase.Trying? && g.length < 32)
            && (Enabled(g, ReadLength(c)) <==> phase.Pushed?)
            && (Enabled(g, Withdraw(c)) <==> phase.Withdrawing?)
            && (Enabled(g, TimerFires(c)) <==> phase.Waiting?)
            && (Enabled(g, Cancel(c)) <==> phase.Trying? || phase.Waiting?)
            && (Enabled(g, Release(c)) <==> phase.Holding?)
            && !Enabled(g, Enter(c, 0))
  {
    ReceiveNeverBlocks(g, c);
  }

  /** A caller that enters waits to push, with its configured limit brought between 1 and 32. */
  lemma EntersTrying(g: Gate, c: nat, configured: int)
    requires c !in g.callers
    ensures Enabled(g, Enter(c, configured))
    ensures var h, limit := Step(g, Enter(c, configured)), if configured < 1 then 1 else if configured > 32 then 32 else configured;
            h == Gate(g.length, g.callers[c := Trying(limit)])
  {
  }

  /** An attempt that finds the gate over the limit leaves no trace: push, length read, withdrawal
      and timer bring the caller and the whole gate back to where they were. */
  lemma RefusedAttemptLeavesNoTrace(g: Gate, c: nat)
    requires c in g.callers && g.callers[c].Trying? && g.length < 32 && g.length + 1 > g.callers[c].limit
    ensures Enabled(g, Push(c))
    ensures var pushed := Step(g, Push(c));
            && Enabled(pushed, ReadLength(c))
            && var refused := Step(pushed, ReadLength(c));
            && Enabled(refused, Withdraw(c))
            && var waiting := Step(refused, Withdraw(c));
            && waiting == Gate(g.length, g.callers[c := Waiting(g.callers[c].limit)])
            && Enabled(waiting, TimerFires(c)) && Step(waiting, TimerFires(c)) == g
  {
    var waiting := Step(Step(Step(g, Push(c)), ReadLength(c)), Withdraw(c));
    assert Step(waiting, TimerFires(c)).callers == g.callers;
  }

  /** An attempt that finds room holds one token until it is released, and then only its caller
      has changed. */
  lemma AdmittedAttemptGivesBack(g: Gate, c: nat)
    requires c in g.callers && g.callers[c].Trying? && g.length < 32 && g.length + 1 <= g.callers[c].limit
    ensures Enabled(g, Push(c))
    ensures var pushed := Step(g, Push(c));
            && Enabled(pushed, ReadLength(c))
            && var holding := Step(pushed, ReadLength(c));
            && holding == Gate(g.length + 1, g.callers[c := Holding(g.callers[c].limit)])
            && Enabled(holding, Release(c))
            && Step(holding, Release(c)) == Gate(g.length, g.callers[c := Released])
  {
    var holding := Step(Step(g, Push(c)), ReadLength(c));
    assert holding.callers == g.callers[c := Holding(g.callers[c].limit)];
    assert Step(holding, Release(c)).callers == g.callers[c := Released];
  }

  /** Giving up changes the caller alone. */
  lemma CancelChangesCallerOnly(g: Gate, c: nat)
    requires Enabled(g, Cancel(c))
    ensures Step(g, Cancel(c)) == Gate(g.length, g.callers[c := Cancelled])
  {
  }
}
