/** The test lab's identifier generator in deterministic mode: a 64-bit counter that every
    identifier and every pseudo-random number advances and that `Reset` leaves alone. */
module LabIds {
  import opened Numerals
  import opened Text

  const TWO63: int := 0x8000_0000_0000_0000
  const TWO64: int := 0x1_0000_0000_0000_0000

  /** Go's conversion `int(u)` of an unsigned 64-bit number. */
  function ToInt(u: nat): int
    requires u < TWO64
  {
    if u < TWO63 then u else u - TWO64
  }

  function Reverse(s: string): string {
    seq(|s|, i requires 0 <= i < |s| => s[|s| - 1 - i])
  }

  /** The lab's own `itoa`: digits are collected from the right and then reversed in place.
      A negative number never enters the loop. */
  function LabItoa(v: int): string {
    if v < 0 then "" else Decimal(v)
  }

  /** What is printed when `digits` have been collected and `left` remains. */
  function Collected(left: nat, digits: string): string {
    (if left > 0 then Decimal(left) else "") + Reverse(digits)
  }

  lemma CollectDigit(left: nat, digits: string)
    requires left > 0
    ensures Collected(left / 10, digits + [DigitChar(left % 10)]) == Collected(left, digits)
  {
    var digit := DigitChar(left % 10);
    assert Reverse(digits + [digit]) == [digit] + Reverse(digits);
    var front := if left / 10 > 0 then Decimal(left / 10) else "";
    assert Decimal(left) == front + [digit];
    assert front + ([digit] + Reverse(digits)) == front + [digit] + Reverse(digits);
  }

  method PrintDecimal(v: int) returns (s: string)
    ensures s == LabItoa(v)
  {
    if v == 0 { return "0"; }
    var digits: string := "";
    var left := v;
    while left > 0
      invariant v > 0 ==> left >= 0 && Collected(left, digits) == Decimal(v)
      invariant v < 0 ==> left == v && digits == ""
      decreases left
    {
      CollectDigit(left, digits);
      digits := digits + [DigitChar(left % 10)];
      left := left / 10;
    }
    var b := new char[|digits|](i requires 0 <= i < |digits| => digits[i]);
    assert b[..] == digits;
    ReverseInPlace(b);
    s := b[..];
  }

  method ReverseInPlace(b: array<char>)
    modifies b
    ensures b[..] == Reverse(old(b[..]))
  {
    var i, j := 0, b.Length - 1;
    while i < j
      invariant 0 <= i <= j + 1 <= b.Length && i + j == b.Length - 1
      invariant forall k | 0 <= k < b.Length :: b[k] == old(if i <= k <= j then b[k] else b[b.Length - 1 - k])
    {
      b[i], b[j] := b[j], b[i];
      i, j := i + 1, j - 1;
    }
  }

  const MARK := "-deterministic"

  function Identifier(prefix: string, sequence: nat): string
    requires sequence < TWO64
  {
    prefix + MARK + "-" + LabItoa(ToInt(sequence))
  }

  lemma CancelSuffix(p: string, q: string, suffix: string)
    requires p + suffix == q + suffix
    ensures p == q
  {
    assert |p| == |q|;
    assert p == (p + suffix)[..|p|];
  }

  /** Two identifiers are equal exactly when their prefixes are and their counter values are,
      except that all counter values of 2^63 and more print the same. */
  lemma IdentifiersEqualIff(p: string, u: nat, q: string, w: nat)
    requires u < TWO64 && w < TWO64
    ensures Identifier(p, u) == Identifier(q, w) <==> p == q && (u == w || (u >= TWO63 && w >= TWO63))
  {
    var x, y := LabItoa(ToInt(u)), LabItoa(ToInt(w));
    assert '-' !in x && '-' !in y by {
      assert u < TWO63 ==> AllDigits(x);
      assert w < TWO63 ==> AllDigits(y);
    }
    if Identifier(p, u) == Identifier(q, w) {
      SplitAtLast('-', p + MARK, x, q + MARK, y);
      CancelSuffix(p, q, MARK);
      if u < TWO63 && w < TWO63 { DecimalInjective(u, w); }
    }
  }

  // ---------------------------------------------------------------- the generator

  datatype Operation =
    | NewId(prefix: string)          // State.ID, or stateIDLocked
    | RandomNumber(max: int)
    | Reset

  function Advanced(sequence: nat): nat
    requires sequence < TWO64
  {
    if sequence + 1 == TWO64 then 0 else sequence + 1
  }

  /** The counter after one operation. */
  function SequenceAfter(sequence: nat, op: Operation): (after: nat)
    requires sequence < TWO64
    ensures after < TWO64
  {
    match op
    case NewId(_) => Advanced(sequence)
    case RandomNumber(max) => if max <= 0 then sequence else Advanced(sequence)
    case Reset => sequence
  }

  /** What an identifier is made of. */
  datatype Draw = Draw(prefix: string, number: Counter)

  type Counter = n: nat | n < TWO64

  /** The draws of a run of operations for identifiers, in order. */
  function Draws(sequence: nat, ops: seq<Operation>): seq<Draw>
    requires sequence < TWO64
    decreases |ops|
  {
    if ops == [] then []
    else
      var after := SequenceAfter(sequence, ops[0]);
      if ops[0].NewId? then [Draw(ops[0].prefix, after)] + Draws(after, ops[1..]) else Draws(after, ops[1..])
  }

  /** The identifiers a run of operations issues, in order. */
  function Issued(sequence: nat, ops: seq<Operation>): seq<string>
    requires sequence < TWO64
  {
    var draws := Draws(sequence, ops);
    seq(|draws|, k requires 0 <= k < |draws| => Identifier(draws[k].prefix, draws[k].number))
  }

  datatype TokenRecord = TokenRecord(expiresAt: int, subject: string)

  datatype WorkflowRecord = WorkflowRecord(token: string, stepId: string, complete: bool)

  datatype RateRecord = RateRecord(started: int, count: int)

  class State {
    var sequence: nat
    var tokens: map<string, TokenRecord>
    var sessions: map<string, TokenRecord>
    var workflows: map<string, WorkflowRecord>
    var retries: map<string, int>
    var rates: map<string, RateRecord>
    var nonces: map<string, int>
    var requests: nat
    var errors: nat
    var statuses: map<int, nat>

    ghost predicate Valid()
      reads this
    {
      sequence < TWO64
    }

    /** Nothing is recorded. */
    predicate Cleared()
      reads this
    {
      && tokens == map[] && sessions == map[] && workflows == map[] && retries == map[] && rates == map[]
      && nonces == map[] && requests == 0 && errors == 0 && statuses == map[]
    }

    constructor ()
      ensures Valid() && sequence == 0 && Cleared()
    {
      sequence := 0;
      tokens, sessions, workflows, retries, rates, nonces := map[], map[], map[], map[], map[], map[];
      requests, errors, statuses := 0, 0, map[];
    }

    method Id(prefix: string) returns (id: string)
      requires Valid()
      modifies this`sequence
      ensures Valid() && sequence == SequenceAfter(old(sequence), NewId(prefix))
      ensures sequence == (old(sequence) + 1) % 0x1_0000_0000_0000_0000
      ensures sequence < 0x8000_0000_0000_0000 ==> id == prefix + "-deterministic-" + Decimal(sequence)
      ensures [id] == Issued(old(sequence), [NewId(prefix)])
    {
      sequence := if sequence + 1 == TWO64 then 0 else sequence + 1;
      var number := PrintDecimal(ToInt(sequence));
      id := prefix + "-deterministic-" + number;
      assert id == Identifier(prefix, sequence);
      assert Draws(old(sequence), [NewId(prefix)]) == [Draw(prefix, sequence)];
    }

    method RandomInt(max: int) returns (n: int)
      requires Valid()
      modifies this`sequence
      ensures Valid() && sequence == SequenceAfter(old(sequence), RandomNumber(max))
      ensures sequence == if max <= 0 then old(sequence) else (old(sequence) + 1) % 0x1_0000_0000_0000_0000
      ensures if max <= 0 then n == 0 else 0 <= n < max && n == sequence % max
    {
      if max <= 0 { return 0; }
      sequence := if sequence + 1 == TWO64 then 0 else sequence + 1;
      n := sequence % max;
    }

    method Reset()
      requires Valid()
      modifies this
      ensures Valid() && sequence == SequenceAfter(old(sequence), Operation.Reset)
      ensures sequence == old(sequence)
      ensures tokens == map[] && sessions == map[] && workflows == map[] && retries == map[] && rates == map[]
      ensures nonces == map[] && requests == 0 && errors == 0 && statuses == map[]
    {
      tokens, sessions, workflows, retries, rates, nonces := map[], map[], map[], map[], map[], map[];
      requests, errors, statuses := 0, 0, map[];
    }
  }

  ghost predicate Increasing(draws: seq<Draw>, above: nat) {
    && (forall i, j | 0 <= i < j < |draws| :: draws[i].number < draws[j].number)
    && forall i | 0 <= i < |draws| :: above < draws[i].number < TWO63
  }

  /** Below the bound the counter never wraps: each draw has a larger number than those before. */
  lemma {:induction false} DrawsIncrease(sequence: nat, ops: seq<Operation>)
    requires sequence + |ops| < TWO63
    ensures Increasing(Draws(sequence, ops), sequence)
    decreases |ops|
  {
    if ops != [] {
      var after := SequenceAfter(sequence, ops[0]);
      DrawsIncrease(after, ops[1..]);
      if ops[0].NewId? {
        IncreasingCons(Draw(ops[0].prefix, after), Draws(after, ops[1..]), sequence);
      }
    }
  }

  lemma IncreasingCons(first: Draw, rest: seq<Draw>, above: nat)
    requires above < first.number < TWO63 && Increasing(rest, first.number)
    ensures Increasing([first] + rest, above)
  {
    var draws := [first] + rest;
    assert forall k | 1 <= k < |draws| :: draws[k] == rest[k - 1];
  }

  /** No identifier is ever issued twice, across all prefixes and resets, while the counter
      stays below 2^63. */
  lemma IdentifiersNeverRepeat(sequence: nat, ops: seq<Operation>, i: nat, j: nat)
    requires sequence + |ops| < TWO63 && i < j < |Issued(sequence, ops)|
    ensures Issued(sequence, ops)[i] != Issued(sequence, ops)[j]
  {
    DrawsIncrease(sequence, ops);
    var a, b := Draws(sequence, ops)[i], Draws(sequence, ops)[j];
    assert Issued(sequence, ops)[i] == Identifier(a.prefix, a.number);
    assert Issued(sequence, ops)[j] == Identifier(b.prefix, b.number);
    IdentifiersEqualIff(a.prefix, a.number, b.prefix, b.number);
  }

  /** From the counter value 2^63 - 1 on, a prefix used twice in a row yields the same
      identifier twice: the bound above is the exact one. */
  lemma IdentifiersRepeatAtTheBound(prefix: string)
    ensures var ids := Issued(TWO63 - 1, [NewId(prefix), NewId(prefix)]);
            |ids| == 2 && ids[0] == ids[1]
  {
    var start := TWO63 - 1;
    var ops := [NewId(prefix), NewId(prefix)];
    assert ops[1..] == [NewId(prefix)] && ops[1..][1..] == [];
    assert Draws(start + 1, [NewId(prefix)]) == [Draw(prefix, start + 2)] + Draws(start + 2, []);
    assert Draws(start, ops) == [Draw(prefix, start + 1)] + Draws(start + 1, [NewId(prefix)]);
    IdentifiersEqualIff(prefix, start + 1, prefix, start + 2);
  }
}
