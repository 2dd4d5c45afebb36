/** The execution-agent allocator: registration, heartbeats, status changes and the
    greedy claim of the least loaded suitable agent. Times are nanoseconds. */
module ExecutionAgents {
  import opened Outcomes
  import opened Text

  const HEARTBEAT_LIMIT := 90_000_000_000
  const MAX_CONCURRENCY := 1000

  datatype Capability = Flag(on: bool) | Detail(text: string)

  datatype Agent = Agent(
    id: string, name: string, groupId: string, version: string, status: string,
    tags: seq<string>, capabilities: map<string, Capability>,
    maxConcurrency: int, activeRuns: int,
    lastHeartbeatAt: Option<int>, revokedAt: Option<int>, createdAt: int, updatedAt: int)

  datatype RegisterInput = RegisterInput(
    name: string, groupId: string, version: string, tags: seq<string>,
    capabilities: map<string, Capability>, maxConcurrency: int)

  datatype HeartbeatInput = HeartbeatInput(
    version: string, tags: seq<string>, capabilities: map<string, Capability>,
    maxConcurrency: int, activeRuns: int)

  datatype Requirements = Requirements(
    agentId: string, groupId: string, requiredTags: seq<string>, requiredCapabilities: seq<string>)

  datatype AgentError =
    | NotFound | NoCapacity | NameRequired | ConcurrencyOutOfRange | ActiveRunsOutOfRange
    | RevokedHeartbeat | InvalidStatus

  type Fleet = map<string, Agent>

  // ---------------------------------------------------------------- eligibility

  predicate Fresh(agent: Agent, now: int) {
    agent.lastHeartbeatAt.Some? && now - agent.lastHeartbeatAt.value <= HEARTBEAT_LIMIT
  }

  predicate TagsCovered(agent: Agent, required: seq<string>) {
    forall i | 0 <= i < |required| :: Lower(required[i]) in agent.tags
  }

  predicate CapabilityOffered(agent: Agent, name: string) {
    name in agent.capabilities && agent.capabilities[name] != Flag(false)
  }

  predicate CapabilitiesCovered(agent: Agent, required: seq<string>) {
    forall i | 0 <= i < |required| :: CapabilityOffered(agent, required[i])
  }

  /** Everything a claim asks of an agent except a free slot. */
  predicate Suitable(agent: Agent, req: Requirements, now: int) {
    && agent.status == "ACTIVE"
    && Fresh(agent, now)
    && (req.agentId != "" ==> req.agentId == agent.id)
    && (req.groupId != "" ==> req.groupId == agent.groupId)
    && TagsCovered(agent, req.requiredTags)
    && CapabilitiesCovered(agent, req.requiredCapabilities)
  }

  predicate Eligible(agent: Agent, req: Requirements, now: int) {
    Suitable(agent, req, now) && agent.activeRuns < agent.maxConcurrency
  }

  method Matches(agent: Agent, req: Requirements, now: int) returns (matches: bool)
    ensures matches <==> Eligible(agent, req, now)
    ensures matches <==>
            && agent.status == "ACTIVE" && agent.activeRuns < agent.maxConcurrency
            && agent.lastHeartbeatAt.Some? && now - agent.lastHeartbeatAt.value <= 90 * 1_000_000_000
            && (req.agentId == "" || req.agentId == agent.id) && (req.groupId == "" || req.groupId == agent.groupId)
            && (forall i | 0 <= i < |req.requiredTags| :: Lower(req.requiredTags[i]) in agent.tags)
            && (forall i | 0 <= i < |req.requiredCapabilities| ::
                  var name := req.requiredCapabilities[i];
                  name in agent.capabilities && agent.capabilities[name] != Flag(false))
  {
    if agent.status != "ACTIVE" || agent.lastHeartbeatAt.None?
       || now - agent.lastHeartbeatAt.value > HEARTBEAT_LIMIT
       || agent.activeRuns >= agent.maxConcurrency {
      return false;
    }
    if req.agentId != "" && req.agentId != agent.id { return false; }
    if req.groupId != "" && req.groupId != agent.groupId { return false; }
    var tags: set<string> := {};
    for i := 0 to |agent.tags|
      invariant forall t :: t in tags <==> t in agent.tags[..i]
    {
      tags := tags + {agent.tags[i]};
    }
    assert agent.tags[..|agent.tags|] == agent.tags;
    for i := 0 to |req.requiredTags|
      invariant forall k | 0 <= k < i :: Lower(req.requiredTags[k]) in agent.tags
    {
      if Lower(req.requiredTags[i]) !in tags { return false; }
    }
    for i := 0 to |req.requiredCapabilities|
      invariant forall k | 0 <= k < i :: CapabilityOffered(agent, req.requiredCapabilities[k])
    {
      var name := req.requiredCapabilities[i];
      if name !in agent.capabilities || agent.capabilities[name] == Flag(false) { return false; }
    }
    return true;
  }

  function Health(agent: Agent, now: int): string {
    if agent.status == "REVOKED" then "REVOKED"
    else if agent.lastHeartbeatAt.None? || now - agent.lastHeartbeatAt.value > HEARTBEAT_LIMIT then "OFFLINE"
    else if agent.status == "DRAINING" then "DRAINING"
    else if agent.activeRuns >= agent.maxConcurrency then "AT_CAPACITY"
    else "HEALTHY"
  }

  const ANY_AGENT := Requirements("", "", [], [])

  /** The health label and the claim test are written apart; they agree. And what the other
      labels say: revoked whatever the heartbeat, offline without a recent one, draining. */
  lemma HealthyIffClaimable(agent: Agent, now: int)
    requires ValidStatus(agent.status)
    ensures Health(agent, now) == "HEALTHY" <==> Eligible(agent, ANY_AGENT, now)
    ensures Health(agent, now) == "AT_CAPACITY" <==>
            Suitable(agent, ANY_AGENT, now) && !Eligible(agent, ANY_AGENT, now)
    ensures Health(agent, now) == "REVOKED" <==> agent.status == "REVOKED"
    ensures Health(agent, now) == "OFFLINE" <==>
            agent.status != "REVOKED" && (agent.lastHeartbeatAt.None? || now - agent.lastHeartbeatAt.value > 90 * 1_000_000_000)
    ensures Health(agent, now) == "DRAINING" <==>
            agent.status == "DRAINING" && agent.lastHeartbeatAt.Some? && now - agent.lastHeartbeatAt.value <= 90 * 1_000_000_000
  {
    var labels := ["REVOKED", "OFFLINE", "DRAINING", "AT_CAPACITY", "HEALTHY"];
    assert |labels[0]| == 7 && |labels[1]| == 7 && |labels[2]| == 8 && |labels[3]| == 11;
    assert labels[0][0] == 'R' && labels[1][0] == 'O' && labels[4][0] == 'H';
    assert "ACTIVE"[0] == 'A' && labels[2][0] == 'D';
  }

  predicate ValidStatus(status: string) {
    status == "ACTIVE" || status == "DRAINING" || status == "REVOKED"
  }

  // ---------------------------------------------------------------- load

  /** `a` is no more loaded than `b`. The source divides in float64; with sizes within
      1..1000 different quotients are at least a millionth apart, so rounding keeps their order. */
  predicate NoMoreLoaded(a: Agent, b: Agent) {
    a.activeRuns * b.maxConcurrency <= b.activeRuns * a.maxConcurrency
  }

  /** `a` is at most one run ahead of `b`, in proportion to their sizes. */
  predicate AtMostOneAhead(a: Agent, b: Agent) {
    a.activeRuns >= 1 ==> (a.activeRuns - 1) * b.maxConcurrency <= b.activeRuns * a.maxConcurrency
  }

  predicate HasSlot(agent: Agent) {
    agent.activeRuns < agent.maxConcurrency
  }

  lemma NoMoreLoadedTransitive(a: Agent, b: Agent, c: Agent)
    requires ValidAgent(a) && ValidAgent(b) && ValidAgent(c)
    requires NoMoreLoaded(a, b) && NoMoreLoaded(b, c)
    ensures NoMoreLoaded(a, c)
  {
    CrossMultiply(a.activeRuns, a.maxConcurrency, b.activeRuns, b.maxConcurrency, c.activeRuns, c.maxConcurrency);
  }

  /** Order of fractions, from x / m <= y / n <= z / p to x / m <= z / p. */
  lemma CrossMultiply(x: int, m: int, y: int, n: int, z: int, p: int)
    requires m > 0 && n > 0 && p > 0
    requires x * n <= y * m && y * p <= z * n
    ensures x * p <= z * m
  {
    MulLe(x * n, y * m, p);
    MulLe(y * p, z * n, m);
    assert (x * p) * n == (x * n) * p;
    assert (y * m) * p == (y * p) * m;
    assert (z * n) * m == (z * m) * n;
    CancelLe(x * p, z * m, n);
  }

  lemma MulLe(x: int, y: int, m: int)
    requires x <= y && m >= 0
    ensures x * m <= y * m
  {
  }

  lemma CancelLe(x: int, y: int, m: int)
    requires x * m <= y * m && m > 0
    ensures x <= y
  {
  }

  // ---------------------------------------------------------------- state

  predicate ValidAgent(agent: Agent) {
    && 1 <= agent.maxConcurrency <= MAX_CONCURRENCY
    && 0 <= agent.activeRuns <= agent.maxConcurrency
  }

  predicate ValidFleet(fleet: Fleet) {
    forall id | id in fleet :: fleet[id].id == id && ValidAgent(fleet[id])
  }

  /** The agents that satisfy a requirement, with or without a free slot. */
  ghost function SuitableIds(fleet: Fleet, req: Requirements, now: int): set<string> {
    set id | id in fleet && Suitable(fleet[id], req, now)
  }

  /** `id` is a suitable agent with a free slot, and no other such agent is less loaded. */
  ghost predicate GreedyChoice(fleet: Fleet, candidates: set<string>, id: string)
    requires ValidFleet(fleet) && candidates <= fleet.Keys
  {
    && id in candidates && HasSlot(fleet[id])
    && forall other | other in candidates && HasSlot(fleet[other]) ::
         NoMoreLoaded(fleet[id], fleet[other])
  }

  /** No suitable agent has a free slot. */
  ghost predicate Exhausted(fleet: Fleet, req: Requirements, now: int) {
    forall id | id in SuitableIds(fleet, req, now) :: !HasSlot(fleet[id])
  }

  /** The fleet after `id` was granted one run: its counter and update time are all that changed. */
  function Granted(fleet: Fleet, id: string, now: int): Fleet
    requires id in fleet
  {
    fleet[id := fleet[id].(activeRuns := fleet[id].activeRuns + 1, updatedAt := now)]
  }

  /** The fleet after one run of `id` ended; an idle agent stays idle. */
  function Released(fleet: Fleet, id: string, now: int): Fleet
    requires id in fleet
  {
    fleet[id := fleet[id].(activeRuns := if fleet[id].activeRuns > 0 then fleet[id].activeRuns - 1 else 0, updatedAt := now)]
  }

  /** A release gives back exactly what a claim took, and the next claim may take it again. */
  lemma ReleaseUndoesClaim(fleet: Fleet, req: Requirements, id: string, claimed: int, now: int)
    requires ValidFleet(fleet) && id in fleet && Eligible(fleet[id], req, now)
    ensures var after := Released(Granted(fleet, id, claimed), id, now);
            && ValidFleet(after)
            && after == fleet[id := fleet[id].(updatedAt := now)]
            && Eligible(after[id], req, now)
  {
    var after := Released(Granted(fleet, id, claimed), id, now);
    assert after[id] == fleet[id].(updatedAt := now);
  }

  predicate NormalizedFrom(tag: string, values: seq<string>) {
    exists i :: 0 <= i < |values| && Lower(TrimSpace(values[i])) == tag
  }

  /** The tag list a registration or heartbeat stores. */
  ghost predicate CanonicalTags(tags: seq<string>, values: seq<string>) {
    && StrictlyAscending(tags)
    && forall t :: t in tags <==> t != "" && NormalizedFrom(t, values)
  }

  method NormalizeTags(values: seq<string>) returns (tags: seq<string>)
    ensures CanonicalTags(tags, values)
    ensures forall t :: t in tags <==> t != "" && exists i :: 0 <= i < |values| && Lower(TrimSpace(values[i])) == t
    ensures forall i, j | 0 <= i < j < |tags| :: StringLess(tags[i], tags[j])
  {
    var seen: set<string> := {};
    var out: seq<string> := [];
    for n := 0 to |values|
      invariant forall t :: t in out <==> t in seen
      invariant forall t :: t in out ==> t != "" && NormalizedFrom(t, values[..n])
      invariant forall i :: 0 <= i < n && Lower(TrimSpace(values[i])) != "" ==> Lower(TrimSpace(values[i])) in out
      invariant forall i, j :: 0 <= i < j < |out| ==> out[i] != out[j]
    {
      var value := Lower(TrimSpace(values[n]));
      assert values[..n + 1][n] == values[n];
      assert forall t :: NormalizedFrom(t, values[..n]) ==> NormalizedFrom(t, values[..n + 1]) by {
        assert forall i :: 0 <= i < n ==> values[..n][i] == values[..n + 1][i];
      }
      if value != "" && value !in seen {
        seen := seen + {value};
        out := out + [value];
      }
    }
    assert values[..|values|] == values;
    tags := SortStrings(out);
  }

  /** Order, repetition, case and surrounding space of the submitted tags do not matter. */
  lemma TagsAreCanonical(tags1: seq<string>, values1: seq<string>, tags2: seq<string>, values2: seq<string>)
    requires CanonicalTags(tags1, values1) && CanonicalTags(tags2, values2)
    requires forall t :: NormalizedFrom(t, values1) <==> NormalizedFrom(t, values2)
    ensures tags1 == tags2
  {
    forall t ensures t in tags1 <==> t in tags2 {
      assert NormalizedFrom(t, values1) <==> NormalizedFrom(t, values2);
    }
    AscendingListingUnique(tags1, tags2);
  }

  /** `Service` with its `MemoryRepository`; each method body runs under the repository lock. */
  class Service {
    var agents: Fleet

    ghost predicate Valid()
      reads this
    {
      ValidFleet(agents)
    }

    constructor ()
      ensures Valid() && agents == map[]
    {
      agents := map[];
    }

    method Register(input: RegisterInput, agentId: string, now: int) returns (r: Result<Agent, AgentError>)
      requires Valid() && agentId !in agents
      modifies this
      ensures Valid()
      ensures TrimSpace(input.name) == "" ==> r == Err(NameRequired)
      ensures TrimSpace(input.name) != "" ==>
                (r == Err(ConcurrencyOutOfRange) <==>
                   input.maxConcurrency < 0 || input.maxConcurrency > 1000)
      ensures r.Err? ==> r.error in {NameRequired, ConcurrencyOutOfRange} && agents == old(agents)
      ensures r.Ok? ==>
                && agents == old(agents)[agentId := r.value]
                && r.value.maxConcurrency == (if input.maxConcurrency == 0 then 1 else input.maxConcurrency)
                && CanonicalTags(r.value.tags, input.tags)
                && r.value == Agent(agentId, TrimSpace(input.name), TrimSpace(input.groupId),
                                    TrimSpace(input.version), "ACTIVE", r.value.tags, input.capabilities,
                                    r.value.maxConcurrency, 0, Some(now), None, now, now)
                && Health(r.value, now) == "HEALTHY"
    {
      var name := TrimSpace(input.name);
      if name == "" { return Err(NameRequired); }
      var slots := if input.maxConcurrency == 0 then 1 else input.maxConcurrency;
      if slots < 1 || slots > MAX_CONCURRENCY { return Err(ConcurrencyOutOfRange); }
      var tags := NormalizeTags(input.tags);
      var agent := Agent(agentId, name, TrimSpace(input.groupId), TrimSpace(input.version), "ACTIVE",
                         tags, input.capabilities, slots, 0, Some(now), None, now, now);
      agents := agents[agentId := agent];
      r := Ok(agent);
    }

    method Heartbeat(id: string, input: HeartbeatInput, now: int) returns (r: Result<Agent, AgentError>)
      requires Valid()
      modifies this
      ensures Valid()
      ensures r.Err? ==> agents == old(agents)
      ensures var capacity, load := 1 <= input.maxConcurrency <= 1000, 0 <= input.activeRuns <= input.maxConcurrency;
              && (r == Err(ConcurrencyOutOfRange) <==> !capacity)
              && (r == Err(ActiveRunsOutOfRange) <==> capacity && !load)
              && (r == Err(NotFound) <==> capacity && load && id !in old(agents))
              && (r == Err(RevokedHeartbeat) <==> capacity && load && id in old(agents) && old(agents)[id].status == "REVOKED")
              && (r.Ok? <==> capacity && load && id in old(agents) && old(agents)[id].status != "REVOKED")
      ensures r.Ok? ==>
                && agents == old(agents)[id := r.value]
                && CanonicalTags(r.value.tags, input.tags)
                && r.value == old(agents)[id].(
                     version := input.version, tags := r.value.tags, capabilities := input.capabilities,
                     maxConcurrency := input.maxConcurrency, activeRuns := input.activeRuns,
                     lastHeartbeatAt := Some(now), updatedAt := now)
    {
      if input.maxConcurrency < 1 || input.maxConcurrency > MAX_CONCURRENCY { return Err(ConcurrencyOutOfRange); }
      if input.activeRuns < 0 || input.activeRuns > input.maxConcurrency { return Err(ActiveRunsOutOfRange); }
      var tags := NormalizeTags(input.tags);
      if id !in agents { return Err(NotFound); }
      if agents[id].status == "REVOKED" { return Err(RevokedHeartbeat); }
      var agent := agents[id].(
        version := input.version, tags := tags, capabilities := input.capabilities,
        maxConcurrency := input.maxConcurrency, activeRuns := input.activeRuns,
        lastHeartbeatAt := Some(now), updatedAt := now);
      agents := agents[id := agent];
      r := Ok(agent);
    }

    method SetStatus(id: string, status: string, now: int) returns (r: Result<Agent, AgentError>)
      requires Valid()
      modifies this
      ensures Valid()
      ensures r == Err(InvalidStatus) <==> status !in ["ACTIVE", "DRAINING", "REVOKED"]
      ensures r == Err(NotFound) <==> status in ["ACTIVE", "DRAINING", "REVOKED"] && id !in old(agents)
      ensures r.Err? ==> agents == old(agents)
      ensures r.Ok? ==>
                && agents == old(agents)[id := r.value]
                && r.value == old(agents)[id].(
                     status := status, updatedAt := now,
                     revokedAt := if status == "REVOKED" then Some(now) else old(agents)[id].revokedAt)
    {
      if !(status == "ACTIVE" || status == "DRAINING" || status == "REVOKED") { return Err(InvalidStatus); }
      if id !in agents { return Err(NotFound); }
      var agent := agents[id].(status := status, updatedAt := now);
      if status == "REVOKED" {
        agent := agent.(revokedAt := Some(now));
      }
      agents := agents[id := agent];
      r := Ok(agent);
    }

    /** `Claim`: scans the map in whatever order it is iterated and keeps the least loaded match. */
    method Claim(req: Requirements, now: int) returns (r: Result<Agent, AgentError>)
      requires Valid()
      modifies this
      ensures Valid()
      ensures r.Err? ==> r.error == NoCapacity && agents == old(agents)
      ensures r.Err? <==> Exhausted(old(agents), req, now)
      ensures r.Ok? ==>
                && GreedyChoice(old(agents), SuitableIds(old(agents), req, now), r.value.id)
                && agents == Granted(old(agents), r.value.id, now)
                && r.value == agents[r.value.id]
                && r.value == old(agents)[r.value.id].(activeRuns := old(agents)[r.value.id].activeRuns + 1, updatedAt := now)
                && agents == old(agents)[r.value.id := r.value]
                && forall other | other in old(agents) && Eligible(old(agents)[other], req, now) ::
                     old(agents)[r.value.id].activeRuns * old(agents)[other].maxConcurrency
                     <= old(agents)[other].activeRuns * old(agents)[r.value.id].maxConcurrency
    {
      var selected: Option<Agent> := None;
      var pending := agents.Keys;
      ghost var candidates := SuitableIds(agents, req, now);
      while pending != {}
        invariant pending <= agents.Keys
        invariant agents == old(agents)
        invariant selected.None? ==> forall id | id in candidates - pending :: !HasSlot(agents[id])
        invariant selected.Some? ==> selected.value.id in agents && agents[selected.value.id] == selected.value
        invariant selected.Some? ==> GreedyChoice(agents, (candidates - pending) + {selected.value.id}, selected.value.id)
                                     && selected.value.id in candidates - pending
        decreases pending
      {
        var id :| id in pending;
        var agent := agents[id];
        assert agent.id == id && ValidAgent(agent);
        var matches := Matches(agent, req, now);
        ghost var visited := candidates - pending;
        pending := pending - {id};
        assert candidates - pending == if id in candidates then visited + {id} else visited;
        if matches {
          if selected.None? {
            selected := Some(agent);
          } else if agent.activeRuns * selected.value.maxConcurrency < selected.value.activeRuns * agent.maxConcurrency {
            forall other | other in visited && HasSlot(agents[other])
              ensures NoMoreLoaded(agent, agents[other])
            {
              NoMoreLoadedTransitive(agent, selected.value, agents[other]);
            }
            selected := Some(agent);
          }
        }
      }
      assert candidates - pending == candidates;
      if selected.None? { return Err(NoCapacity); }
      assert candidates + {selected.value.id} == candidates;
      forall other | other in agents && Eligible(agents[other], req, now)
        ensures selected.value.activeRuns * agents[other].maxConcurrency <= agents[other].activeRuns * selected.value.maxConcurrency
      {
        assert other in candidates && NoMoreLoaded(selected.value, agents[other]);
      }
      var granted := selected.value.(activeRuns := selected.value.activeRuns + 1, updatedAt := now);
      agents := agents[granted.id := granted];
      r := Ok(granted);
    }

    method Release(id: string, now: int) returns (r: Result<(), AgentError>)
      requires Valid()
      modifies this
      ensures Valid()
      ensures r.Err? <==> id !in old(agents)
      ensures r.Err? ==> r.error == NotFound && agents == old(agents)
      ensures r.Ok? ==> agents == Released(old(agents), id, now)
      ensures r.Ok? ==>
                var runs := old(agents)[id].activeRuns;
                agents == old(agents)[id := old(agents)[id].(activeRuns := if runs == 0 then 0 else runs - 1, updatedAt := now)]
    {
      if id !in agents { return Err(NotFound); }
      var agent := agents[id];
      var remaining := if agent.activeRuns - 1 > 0 then agent.activeRuns - 1 else 0;
      agents := agents[id := agent.(activeRuns := remaining, updatedAt := now)];
      r := Ok(());
    }
  }

  // ---------------------------------------------------------------- runs of claims

  /** `grants` lists the agents chosen by consecutive successful claims for one requirement
      at one time, each claim deciding on the fleet as it finds it. Claims with equal loads may
      go either way. */
  ghost predicate ClaimRun(fleet: Fleet, req: Requirements, now: int, grants: seq<string>)
    requires ValidFleet(fleet)
    decreases |grants|
  {
    grants != [] ==>
      && GreedyChoice(fleet, SuitableIds(fleet, req, now), grants[0])
      && ClaimRun(Granted(fleet, grants[0], now), req, now, grants[1..])
  }

  function AfterClaims(fleet: Fleet, grants: seq<string>, now: int): Fleet
    requires forall k | 0 <= k < |grants| :: grants[k] in fleet
  {
    if grants == [] then fleet else AfterClaims(Granted(fleet, grants[0], now), grants[1..], now)
  }

  /** A grant changes nobody's suitability, so the candidates of a run of claims stay the same. */
  lemma GrantKeepsCandidates(fleet: Fleet, req: Requirements, now: int, id: string)
    requires id in fleet
    ensures SuitableIds(Granted(fleet, id, now), req, now) == SuitableIds(fleet, req, now)
  {
    assert Suitable(Granted(fleet, id, now)[id], req, now) <==> Suitable(fleet[id], req, now);
  }

  lemma {:induction false} RunStaysInFleet(fleet: Fleet, req: Requirements, now: int, grants: seq<string>)
    requires ValidFleet(fleet) && ClaimRun(fleet, req, now, grants)
    ensures forall k | 0 <= k < |grants| :: grants[k] in fleet
    ensures AfterClaims(fleet, grants, now).Keys == fleet.Keys && ValidFleet(AfterClaims(fleet, grants, now))
    decreases |grants|
  {
    if grants != [] {
      RunStaysInFleet(Granted(fleet, grants[0], now), req, now, grants[1..]);
      forall k | 0 <= k < |grants| ensures grants[k] in fleet {
        if k > 0 { assert grants[k] == grants[1..][k - 1]; }
      }
    }
  }

  ghost predicate Balanced(fleet: Fleet, candidates: set<string>)
    requires candidates <= fleet.Keys
  {
    forall i, j | i in candidates && j in candidates :: AtMostOneAhead(fleet[i], fleet[j])
  }

  lemma OneMoreRun(a: Agent, b: Agent, now: int)
    requires ValidAgent(a) && ValidAgent(b)
    requires HasSlot(b) ==> NoMoreLoaded(a, b)
    ensures AtMostOneAhead(a.(activeRuns := a.activeRuns + 1, updatedAt := now), b)
  {
    if !HasSlot(b) {
      assert b.activeRuns == b.maxConcurrency;
      MulLe(a.activeRuns, a.maxConcurrency, b.maxConcurrency);
    }
  }

  lemma StaysBehind(a: Agent, b: Agent, now: int)
    requires ValidAgent(a) && ValidAgent(b) && AtMostOneAhead(a, b)
    ensures AtMostOneAhead(a, b.(activeRuns := b.activeRuns + 1, updatedAt := now))
  {
    MulLe(b.activeRuns, b.activeRuns + 1, a.maxConcurrency);
  }

  lemma ClaimKeepsBalance(fleet: Fleet, candidates: set<string>, now: int, id: string)
    requires ValidFleet(fleet) && candidates <= fleet.Keys
    requires GreedyChoice(fleet, candidates, id) && Balanced(fleet, candidates)
    ensures Balanced(Granted(fleet, id, now), candidates)
  {
    var after := Granted(fleet, id, now);
    forall i, j | i in candidates && j in candidates
      ensures AtMostOneAhead(after[i], after[j])
    {
      if i == id && j == id {
        AheadOfItself(after[id]);
      } else if i == id {
        OneMoreRun(fleet[i], fleet[j], now);
      } else if j == id {
        StaysBehind(fleet[i], fleet[j], now);
      }
    }
  }

  lemma AheadOfItself(a: Agent)
    requires a.maxConcurrency >= 0
    ensures AtMostOneAhead(a, a)
  {
    MulLe(a.activeRuns - 1, a.activeRuns, a.maxConcurrency);
  }

  lemma {:induction false} BalanceAlongRun(fleet: Fleet, req: Requirements, now: int, grants: seq<string>)
    requires ValidFleet(fleet) && ClaimRun(fleet, req, now, grants)
    requires Balanced(fleet, SuitableIds(fleet, req, now))
    ensures forall k | 0 <= k < |grants| :: grants[k] in fleet
    ensures AfterClaims(fleet, grants, now).Keys == fleet.Keys
    ensures Balanced(AfterClaims(fleet, grants, now), SuitableIds(fleet, req, now))
    decreases |grants|
  {
    RunStaysInFleet(fleet, req, now, grants);
    if grants != [] {
      GrantKeepsCandidates(fleet, req, now, grants[0]);
      ClaimKeepsBalance(fleet, SuitableIds(fleet, req, now), now, grants[0]);
      BalanceAlongRun(Granted(fleet, grants[0], now), req, now, grants[1..]);
    }
  }

  /** Greedy balance: from idle suitable agents, after any number of claims no suitable agent
      is more than one run ahead of any other in proportion to size, full agents included. */
  lemma GreedyBalance(fleet: Fleet, req: Requirements, now: int, grants: seq<string>)
    requires ValidFleet(fleet) && ClaimRun(fleet, req, now, grants)
    requires forall id | id in SuitableIds(fleet, req, now) :: fleet[id].activeRuns == 0
    ensures forall k | 0 <= k < |grants| :: grants[k] in fleet
    ensures AfterClaims(fleet, grants, now).Keys == fleet.Keys
    ensures var after := AfterClaims(fleet, grants, now);
            forall i, j | i in SuitableIds(fleet, req, now) && j in SuitableIds(fleet, req, now) && after[i].activeRuns >= 1 ::
              (after[i].activeRuns - 1) * after[j].maxConcurrency <= after[j].activeRuns * after[i].maxConcurrency
  {
    var candidates := SuitableIds(fleet, req, now);
    forall i, j | i in candidates && j in candidates ensures AtMostOneAhead(fleet[i], fleet[j]) {
      assert fleet[i].activeRuns == 0;
    }
    BalanceAlongRun(fleet, req, now, grants);
    var after := AfterClaims(fleet, grants, now);
    forall i, j | i in candidates && j in candidates && after[i].activeRuns >= 1
      ensures (after[i].activeRuns - 1) * after[j].maxConcurrency <= after[j].activeRuns * after[i].maxConcurrency
    {
      assert AtMostOneAhead(after[i], after[j]);
    }
  }

  // ---------------------------------------------------------------- how many claims succeed

  ghost function SumFree(fleet: Fleet, ids: set<string>): int
    requires ids <= fleet.Keys
  {
    if ids == {} then 0
    else
      var id :| id in ids;
      fleet[id].maxConcurrency - fleet[id].activeRuns + SumFree(fleet, ids - {id})
  }

  lemma {:induction false} SumFreeSplit(fleet: Fleet, ids: set<string>, id: string)
    requires ids <= fleet.Keys && id in ids
    ensures SumFree(fleet, ids) ==
            fleet[id].maxConcurrency - fleet[id].activeRuns + SumFree(fleet, ids - {id})
  {
    var first :| first in ids && SumFree(fleet, ids) ==
                 fleet[first].maxConcurrency - fleet[first].activeRuns + SumFree(fleet, ids - {first});
    if first != id {
      SumFreeSplit(fleet, ids - {first}, id);
      SumFreeSplit(fleet, ids - {id}, first);
      assert ids - {first} - {id} == ids - {id} - {first};
    }
  }

  lemma {:induction false} SumFreeFrame(a: Fleet, b: Fleet, ids: set<string>)
    requires ids <= a.Keys && ids <= b.Keys
    requires forall id | id in ids ::
               a[id].maxConcurrency == b[id].maxConcurrency && a[id].activeRuns == b[id].activeRuns
    ensures SumFree(a, ids) == SumFree(b, ids)
  {
    if ids != {} {
      var id :| id in ids;
      SumFreeSplit(a, ids, id);
      SumFreeSplit(b, ids, id);
      SumFreeFrame(a, b, ids - {id});
    }
  }

  lemma {:induction false} SumFreePositive(fleet: Fleet, ids: set<string>)
    requires ValidFleet(fleet) && ids <= fleet.Keys
    ensures SumFree(fleet, ids) >= 0
    ensures SumFree(fleet, ids) > 0 <==> exists id :: id in ids && HasSlot(fleet[id])
  {
    if ids != {} {
      var id :| id in ids;
      SumFreeSplit(fleet, ids, id);
      SumFreePositive(fleet, ids - {id});
    }
  }

  lemma ClaimTakesOneSlot(fleet: Fleet, candidates: set<string>, now: int, id: string)
    requires ValidFleet(fleet) && candidates <= fleet.Keys && id in candidates
    ensures SumFree(Granted(fleet, id, now), candidates) == SumFree(fleet, candidates) - 1
  {
    var after := Granted(fleet, id, now);
    SumFreeSplit(fleet, candidates, id);
    SumFreeSplit(after, candidates, id);
    SumFreeFrame(fleet, after, candidates - {id});
  }

  lemma ExhaustedIffNothingFree(fleet: Fleet, req: Requirements, now: int)
    requires ValidFleet(fleet)
    ensures SumFree(fleet, SuitableIds(fleet, req, now)) >= 0
    ensures Exhausted(fleet, req, now) <==> SumFree(fleet, SuitableIds(fleet, req, now)) == 0
  {
    SumFreePositive(fleet, SuitableIds(fleet, req, now));
  }

  /** Exact capacity: for a fixed requirement and time, the claims that succeed before
      `ErrNoCapacity` are exactly as many as the free slots of the suitable agents: there are
      never more, and the next claim fails exactly when there have been that many. */
  lemma {:induction false} GrantsExactlyFreeSlots(fleet: Fleet, req: Requirements, now: int, grants: seq<string>)
    requires ValidFleet(fleet) && ClaimRun(fleet, req, now, grants)
    ensures forall k | 0 <= k < |grants| :: grants[k] in fleet
    ensures |grants| <= SumFree(fleet, SuitableIds(fleet, req, now))
    ensures Exhausted(AfterClaims(fleet, grants, now), req, now) <==>
            |grants| == SumFree(fleet, SuitableIds(fleet, req, now))
    decreases |grants|
  {
    RunStaysInFleet(fleet, req, now, grants);
    if grants == [] {
      ExhaustedIffNothingFree(fleet, req, now);
    } else {
      GrantKeepsCandidates(fleet, req, now, grants[0]);
      ClaimTakesOneSlot(fleet, SuitableIds(fleet, req, now), now, grants[0]);
      GrantsExactlyFreeSlots(Granted(fleet, grants[0], now), req, now, grants[1..]);
    }
  }
}
