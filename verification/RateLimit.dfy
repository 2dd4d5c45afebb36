/** The test lab's fixed-window rate limiter: five requests per client in a window of ten
    seconds that starts with the first request after the previous window ended.
    Clock readings are nanoseconds. */
module RateLimit {

  const WINDOW: int := 10_000_000_000
  const SECOND: int := 1_000_000_000
  const LIMIT: int := 5

  datatype Rate = Rate(started: int, count: int)

  datatype Answer = Allowed(remaining: int) | Limited(retryAfter: int)

  type Rates = map<string, Rate>

  /** The client's record after one more request read at `now`. */
  function Counted(rates: Rates, client: string, now: int): Rate {
    if client !in rates || now - rates[client].started >= WINDOW then Rate(now, 1)
    else Rate(rates[client].started, rates[client].count + 1)
  }

  function Next(rates: Rates, client: string, now: int): Rates {
    rates[client := Counted(rates, client, now)]
  }

  /** Whole seconds, rounded down, plus one; the remaining time is positive when this is used. */
  function RetryAfter(record: Rate, now: int): int {
    (WINDOW - (now - record.started)) / SECOND + 1
  }

  predicate Allows(rates: Rates, client: string, now: int) {
    Counted(rates, client, now).count <= LIMIT
  }

  class Limiter {
    var rates: Rates

    constructor ()
      ensures rates == map[]
    {
      rates := map[];
    }

    method RateLimit(clientId: string, remoteAddr: string, now: int) returns (answer: Answer)
      modifies this
      ensures var key := if clientId == "" then remoteAddr else clientId;
              var open := key in old(rates) && now - old(rates)[key].started < 10 * 1_000_000_000;
              var count := if open then old(rates)[key].count + 1 else 1;
              var started := if open then old(rates)[key].started else now;
              && rates == old(rates)[key := Rate(started, count)]
              && (count <= 5 ==> answer == Allowed(5 - count))
              && (count > 5 ==> answer == Limited((10 * 1_000_000_000 - (now - started)) / 1_000_000_000 + 1))
      ensures var key := if clientId == "" then remoteAddr else clientId;
              && rates == Next(old(rates), key, now)
              && (answer.Allowed? <==> Allows(old(rates), key, now))
              && (answer.Allowed? ==> 0 <= answer.remaining == LIMIT - rates[key].count)
              && (answer.Limited? ==> answer.retryAfter == RetryAfter(rates[key], now))
    {
      var key := clientId;
      if key == "" { key := remoteAddr; }
      var record := Rate(now, 0);
      if key in rates && now - rates[key].started < WINDOW {
        record := rates[key];
      }
      record := record.(count := record.count + 1);
      rates := rates[key := record];
      var remaining := 5 - record.count;
      if remaining < 0 { remaining := 0; }
      if record.count > 5 {
        return Limited((WINDOW - (now - record.started)) / SECOND + 1);
      }
      return Allowed(remaining);
    }
  }

  // ---------------------------------------------------------------- runs

  /** A request by some client, with the clock reading taken for it; requests are listed in
      the order in which they take the lock. */
  datatype Request = Request(client: string, now: int)

  /** The clock is read before the lock is taken: a reading may be up to `lag` behind one that
      an earlier request brought. With no lag the readings are in order. */
  ghost predicate Lagging(requests: seq<Request>, lag: nat) {
    forall i, j :: 0 <= i < j < |requests| ==> requests[i].now <= requests[j].now + lag
  }

  /** How many requests of `client` read in `[from, from + WINDOW)` are allowed. */
  function AllowedWithin(rates: Rates, requests: seq<Request>, client: string, from: int): nat
    decreases |requests|
  {
    if requests == [] then 0
    else
      var r := requests[0];
      (if r.client == client && from <= r.now < from + WINDOW && Allows(rates, client, r.now) then 1 else 0)
      + AllowedWithin(Next(rates, r.client, r.now), requests[1..], client, from)
  }

  ghost predicate Sane(rates: Rates) {
    forall c | c in rates :: rates[c].count >= 1
  }

  function Left(count: int): int {
    if count < LIMIT then LIMIT - count else 0
  }

  /** How many windows can start at `start` or later, and before `end`. */
  function Windows(start: int, end: int): int {
    if start >= end then 0 else (end - start - 1) / WINDOW + 1
  }

  lemma WindowsFacts(start: int, later: int, end: int)
    requires start <= later
    ensures 0 <= Windows(later, end) <= Windows(start, end)
    ensures start < end ==> Windows(start, end) == 1 + Windows(start + WINDOW, end)
  {
  }

  /** What windows that start at `start` or later can add: a window that starts in the interval
      all its requests, any other all but the one that opens it. */
  function Ahead(start: int, from: int, lag: nat): int {
    (LIMIT - 1) * Windows(start, from + WINDOW + lag) + if start < from + WINDOW then 1 else 0
  }

  /** The earliest start of a window that can count in the interval is just after `from - WINDOW`. */
  function Earliest(start: int, from: int): int {
    if start > from - WINDOW then start else from - WINDOW + 1
  }

  /** A bound on what the client can still be allowed in the interval. */
  function Capacity(rates: Rates, client: string, from: int, lag: nat): int {
    if client !in rates then Ahead(Earliest(from - WINDOW, from), from, lag)
    else
      var record := rates[client];
      (if from - WINDOW < record.started < from + WINDOW + lag then Left(record.count) else 0)
      + Ahead(Earliest(record.started + WINDOW, from), from, lag)
  }

  /** A window that starts at `now` is one of those ahead. */
  lemma AheadUsed(start: int, now: int, from: int, lag: nat)
    requires from - WINDOW < start <= Earliest(now, from)
    ensures (if from <= now < from + WINDOW then 1 else 0)
            + (if from - WINDOW < now < from + WINDOW + lag then LIMIT - 1 else 0)
            + Ahead(Earliest(now + WINDOW, from), from, lag) <= Ahead(start, from, lag)
  {
    var end, after := from + WINDOW + lag, Earliest(now + WINDOW, from);
    if from - WINDOW < now {
      WindowsFacts(start, now, end);
      WindowsFacts(now, after, end);
    } else {
      WindowsFacts(start, after, end);
    }
  }

  lemma RequestUsesCapacity(rates: Rates, client: string, now: int, from: int, lag: nat)
    requires client in rates ==> rates[client].started <= now + lag
    ensures (if from <= now < from + WINDOW && Allows(rates, client, now) then 1 else 0)
            + Capacity(Next(rates, client, now), client, from, lag) <= Capacity(rates, client, from, lag)
  {
    if client !in rates || now - rates[client].started >= WINDOW {
      AheadUsed(Earliest(if client in rates then rates[client].started + WINDOW else from - WINDOW, from), now, from, lag);
    }
  }

  /** What later readings have to respect for the client's open window. */
  ghost predicate WithinLag(rates: Rates, requests: seq<Request>, client: string, lag: nat) {
    client in rates ==> forall i | 0 <= i < |requests| :: rates[client].started <= requests[i].now + lag
  }

  lemma {:induction false} AllowedWithinCapacity(rates: Rates, requests: seq<Request>, client: string, from: int, lag: nat)
    requires Lagging(requests, lag) && WithinLag(rates, requests, client, lag)
    ensures AllowedWithin(rates, requests, client, from) <= Capacity(rates, client, from, lag)
    decreases |requests|
  {
    if requests == [] {
      CapacityNotNegative(rates, client, from, lag);
    } else {
      var r, rest := requests[0], requests[1..];
      assert forall i | 0 <= i < |rest| :: rest[i] == requests[i + 1];
      if r.client == client { RequestUsesCapacity(rates, client, r.now, from, lag); }
      AllowedWithinCapacity(Next(rates, r.client, r.now), rest, client, from, lag);
    }
  }

  lemma CapacityNotNegative(rates: Rates, client: string, from: int, lag: nat)
    ensures Capacity(rates, client, from, lag) >= 0
  {
  }

  /** The most a client can be allowed in ten seconds: four for each window that can start
      less than ten seconds before the interval or up to `lag` after it, and one more. */
  function MostPerInterval(lag: nat): int {
    (LIMIT - 1) * ((2 * WINDOW + lag - 2) / WINDOW + 1) + 1
  }

  /** Any half-open ten-second interval contains at most that many allowed requests of a client,
      whatever other clients do and whenever the interval begins. */
  lemma BoundPerInterval(rates: Rates, requests: seq<Request>, client: string, from: int, lag: nat)
    requires Sane(rates) && Lagging(requests, lag) && WithinLag(rates, requests, client, lag)
    ensures AllowedWithin(rates, requests, client, from) <= MostPerInterval(lag)
  {
    AllowedWithinCapacity(rates, requests, client, from, lag);
    var end, first := from + WINDOW + lag, from - WINDOW + 1;
    if client in rates {
      var started := rates[client].started;
      if from - WINDOW < started < end {
        WindowsFacts(first, started, end);
        WindowsFacts(started, started + WINDOW, end);
      } else {
        WindowsFacts(first, Earliest(started + WINDOW, from), end);
      }
    }
  }

  /** With readings in the order of the lock that is at most nine: five in a window that starts
      in the interval, and four left in one that started before it. */
  lemma AtMostNinePerInterval(rates: Rates, requests: seq<Request>, client: string, from: int)
    requires Sane(rates) && Lagging(requests, 0) && WithinLag(rates, requests, client, 0)
    ensures AllowedWithin(rates, requests, client, from) <= 9
  {
    BoundPerInterval(rates, requests, client, from, 0);
  }

  // ---------------------------------------------------------------- the bound is reached

  /** `rounds` windows in a row from `start` on, each opened on time and followed by four
      requests whose readings lie in the interval and as late in it as the window allows. */
  function Rounds(client: string, from: int, start: int, rounds: nat): seq<Request>
    decreases rounds
  {
    if rounds == 0 then []
    else
      [Request(client, start)] + Repeat(Request(client, Inside(from, start)), LIMIT - 1)
      + Rounds(client, from, start + WINDOW, rounds - 1)
  }

  function Inside(from: int, start: int): int {
    if start < from then from else from + WINDOW - 1
  }

  function Repeat(r: Request, n: nat): (rs: seq<Request>)
    ensures |rs| == n && forall i | 0 <= i < n :: rs[i] == r
  {
    if n == 0 then [] else [r] + Repeat(r, n - 1)
  }

  lemma OneMore(rates: Rates, r: Request, rest: seq<Request>, from: int)
    ensures AllowedWithin(rates, [r] + rest, r.client, from) ==
            (if from <= r.now < from + WINDOW && Allows(rates, r.client, r.now) then 1 else 0)
            + AllowedWithin(Next(rates, r.client, r.now), rest, r.client, from)
  {
    assert ([r] + rest)[1..] == rest;
  }

  /** Repeated requests are counted in the open window and allowed while it has room. */
  lemma {:induction false} Late(rates: Rates, r: Request, from: int, count: nat, n: nat, rest: seq<Request>)
    requires r.client in rates && rates[r.client].count == count && count + n <= LIMIT
    requires r.now - rates[r.client].started < WINDOW && from <= r.now < from + WINDOW
    ensures AllowedWithin(rates, Repeat(r, n) + rest, r.client, from) ==
            n + AllowedWithin(rates[r.client := Rate(rates[r.client].started, count + n)], rest, r.client, from)
    decreases n
  {
    var started := rates[r.client].started;
    if n == 0 {
      assert Repeat(r, 0) + rest == rest && rates[r.client := Rate(started, count)] == rates;
    } else {
      assert Repeat(r, n) + rest == [r] + (Repeat(r, n - 1) + rest);
      OneMore(rates, r, Repeat(r, n - 1) + rest, from);
      var next := rates[r.client := Rate(started, count + 1)];
      Late(next, r, from, count + 1, n - 1, rest);
      assert next[r.client := Rate(started, count + n)] == rates[r.client := Rate(started, count + n)];
    }
  }

  /** How many of the windows from `start` on start in the interval. */
  function Openers(from: int, start: int, rounds: nat): nat
    decreases rounds
  {
    if rounds == 0 then 0 else (if from <= start < from + WINDOW then 1 else 0) + Openers(from, start + WINDOW, rounds - 1)
  }

  lemma {:induction false} RoundsAllowed(rates: Rates, client: string, from: int, start: int, rounds: nat)
    requires from - WINDOW < start && (client in rates ==> rates[client].started + WINDOW <= start)
    ensures AllowedWithin(rates, Rounds(client, from, start, rounds), client, from) ==
            (LIMIT - 1) * rounds + Openers(from, start, rounds)
    decreases rounds
  {
    if rounds > 0 {
      var late, rest := Request(client, Inside(from, start)), Rounds(client, from, start + WINDOW, rounds - 1);
      assert Rounds(client, from, start, rounds) == [Request(client, start)] + (Repeat(late, LIMIT - 1) + rest);
      OneMore(rates, Request(client, start), Repeat(late, LIMIT - 1) + rest, from);
      var next := rates[client := Rate(start, 1)];
      Late(next, late, from, 1, LIMIT - 1, rest);
      RoundsAllowed(next[client := Rate(start, LIMIT)], client, from, start + WINDOW, rounds - 1);
    }
  }

  ghost predicate ReadFrom(requests: seq<Request>, least: int) {
    forall i | 0 <= i < |requests| :: least <= requests[i].now
  }

  /** The rounds lag no more than allowed, as long as the last window starts soon enough. */
  lemma {:induction false} RoundsLag(client: string, from: int, start: int, rounds: nat, lag: nat)
    requires from - WINDOW < start
    requires rounds > 0 ==> start + (rounds - 1) * WINDOW < from + WINDOW + lag
    ensures var run := Rounds(client, from, start, rounds);
            Lagging(run, lag) && ReadFrom(run, start - lag) && ReadFrom(run, Least(start, Inside(from, start)))
    decreases rounds
  {
    if rounds > 0 {
      var late, rest := Request(client, Inside(from, start)), Rounds(client, from, start + WINDOW, rounds - 1);
      RoundsLag(client, from, start + WINDOW, rounds - 1, lag);
    }
  }

  function Least(a: int, b: int): int {
    if a <= b then a else b
  }

  /** The bound is reached for every lag, from the empty table on. */
  lemma BoundIsReached(client: string, from: int, lag: nat) returns (requests: seq<Request>)
    ensures Lagging(requests, lag)
    ensures AllowedWithin(map[], requests, client, from) == MostPerInterval(lag)
  {
    var start, rounds := from - WINDOW + 1, (2 * WINDOW + lag - 2) / WINDOW + 1;
    requests := Rounds(client, from, start, rounds);
    RoundsLag(client, from, start, rounds, lag);
    RoundsAllowed(map[], client, from, start, rounds);
    NoMoreOpeners(from, start + 2 * WINDOW, rounds - 2);
  }

  lemma {:induction false} NoMoreOpeners(from: int, start: int, rounds: nat)
    requires start >= from + WINDOW
    ensures Openers(from, start, rounds) == 0
    decreases rounds
  {
    if rounds > 0 { NoMoreOpeners(from, start + WINDOW, rounds - 1); }
  }

  /** Without any order of the readings the number has no bound at all. */
  lemma DelayedReadingsUnbounded(client: string, from: int, n: nat) returns (requests: seq<Request>)
    ensures AllowedWithin(map[], requests, client, from) >= n
  {
    requests := BoundIsReached(client, from, n * WINDOW);
    assert (2 * WINDOW + n * WINDOW - 2) / WINDOW == n + 1;
  }

  // ---------------------------------------------------------------- one window

  function AfterAll(rates: Rates, requests: seq<Request>): Rates
    decreases |requests|
  {
    if requests == [] then rates else AfterAll(Next(rates, requests[0].client, requests[0].now), requests[1..])
  }

  /** How many of the client's requests are allowed in the window that starts at `started`. */
  function AllowedInWindow(rates: Rates, requests: seq<Request>, client: string, started: int): nat
    decreases |requests|
  {
    if requests == [] then 0
    else
      var r := requests[0];
      (if r.client == client && Allows(rates, client, r.now) && Counted(rates, client, r.now).started == started then 1 else 0)
      + AllowedInWindow(Next(rates, r.client, r.now), requests[1..], client, started)
  }

  /** A window that is over allows nothing more: in the order of the lock, windows of a client
      only ever start later. */
  lemma {:induction false} PastWindowClosed(rates: Rates, requests: seq<Request>, client: string, started: int)
    requires client in rates && rates[client].started > started
    ensures AllowedInWindow(rates, requests, client, started) == 0
    decreases |requests|
  {
    if requests != [] {
      PastWindowClosed(Next(rates, requests[0].client, requests[0].now), requests[1..], client, started);
    }
  }

  lemma {:induction false} OpenWindowLeft(rates: Rates, requests: seq<Request>, client: string)
    requires client in rates
    ensures AllowedInWindow(rates, requests, client, rates[client].started) <= Left(rates[client].count)
    decreases |requests|
  {
    if requests != [] {
      var r, next := requests[0], Next(rates, requests[0].client, requests[0].now);
      if r.client == client && r.now - rates[client].started >= WINDOW {
        PastWindowClosed(next, requests[1..], client, rates[client].started);
      } else {
        OpenWindowLeft(next, requests[1..], client);
      }
    }
  }

  /** Each window allows at most five requests, however late their clock readings are. */
  lemma {:induction false} AtMostFivePerWindow(rates: Rates, requests: seq<Request>, client: string, started: int)
    requires client in rates ==> rates[client].started != started
    ensures AllowedInWindow(rates, requests, client, started) <= 5
    decreases |requests|
  {
    if requests != [] {
      var r, next := requests[0], Next(rates, requests[0].client, requests[0].now);
      if r.client == client && next[client] == Rate(started, 1) {
        OpenWindowLeft(next, requests[1..], client);
      } else {
        AtMostFivePerWindow(next, requests[1..], client, started);
      }
    }
  }

  // ---------------------------------------------------------------- waiting

  lemma {:induction false} OthersDoNotMatter(rates: Rates, requests: seq<Request>, client: string)
    requires forall i | 0 <= i < |requests| :: requests[i].client != client
    ensures client in rates <==> client in AfterAll(rates, requests)
    ensures client in rates ==> AfterAll(rates, requests)[client] == rates[client]
    decreases |requests|
  {
    if requests != [] {
      assert forall i | 0 <= i < |requests[1..]| :: requests[1..][i] == requests[i + 1];
      OthersDoNotMatter(Next(rates, requests[0].client, requests[0].now), requests[1..], client);
    }
  }

  /** A refused client that stays silent for `Retry-After` seconds is allowed next, however
      many requests others make meanwhile; a shorter whole number of seconds is enough only
      when what remains of the window is a whole number of seconds, and then one less is. */
  lemma RetryAfterSuffices(rates: Rates, client: string, now: int, others: seq<Request>, later: int)
    requires !Allows(rates, client, now) && Sane(rates)
    requires forall i | 0 <= i < |others| :: others[i].client != client
    ensures var after := Next(rates, client, now);
            var wait := RetryAfter(after[client], now) * 1_000_000_000;
            var remaining := 10 * 1_000_000_000 - (now - after[client].started);
            && wait > 0
            && (later >= now + wait ==> Allows(AfterAll(after, others), client, later))
            && (now <= later < now + wait - 1_000_000_000 ==> !Allows(AfterAll(after, others), client, later))
            && (Allows(AfterAll(after, others), client, now + wait - 1_000_000_000) <==> remaining % 1_000_000_000 == 0)
  {
    OthersDoNotMatter(Next(rates, client, now), others, client);
  }
}
