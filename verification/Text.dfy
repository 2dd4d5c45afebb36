/** Operations of Go's `strings` and `sort` packages that several components use.
    A Go string is a sequence of bytes; here each byte is the char with that code,
    and case mapping and white space are those of ASCII. */
module Text {
  import Orders

  predicate IsSpace(c: char) {
    c == ' ' || c == '\t' || c == '\n' || c == '\r' || c as int == 11 || c as int == 12
  }

  function TrimLeft(s: string): string {
    if s != "" && IsSpace(s[0]) then TrimLeft(s[1..]) else s
  }

  function TrimRight(s: string): string {
    if s != "" && IsSpace(s[|s| - 1]) then TrimRight(s[..|s| - 1]) else s
  }

  function TrimSpace(s: string): string {
    TrimRight(TrimLeft(s))
  }

  function LowerChar(c: char): char {
    if 'A' <= c <= 'Z' then (c as int + 32) as char else c
  }

  function Lower(s: string): string {
    seq(|s|, i requires 0 <= i < |s| => LowerChar(s[i]))
  }

  /** Two ways of cutting a text at its first separator, or at its last one, are the same. */
  lemma SplitAtFirst(separator: char, a: string, x: string, b: string, y: string)
    requires separator !in a && separator !in b && a + [separator] + x == b + [separator] + y
    ensures a == b && x == y
  {
    var s := a + [separator] + x;
    assert s[|a|] == separator && (b + [separator] + y)[|b|] == separator;
    assert forall i | 0 <= i < |a| :: s[i] == a[i];
    assert forall i | 0 <= i < |b| :: s[i] == b[i];
    assert |a| == |b|;
    assert a == s[..|a|] && b == s[..|b|];
    assert x == s[|a| + 1..] && y == s[|b| + 1..];
  }

  lemma SplitAtLast(separator: char, a: string, x: string, b: string, y: string)
    requires separator !in x && separator !in y && a + [separator] + x == b + [separator] + y
    ensures a == b && x == y
  {
    var s := a + [separator] + x;
    assert s[|a|] == separator && (b + [separator] + y)[|b|] == separator;
    assert forall i | |a| < i < |s| :: s[i] == x[i - |a| - 1];
    assert forall i | |b| < i < |s| :: s[i] == y[i - |b| - 1];
    assert |a| == |b|;
    assert a == s[..|a|] && b == s[..|b|];
    assert x == s[|a| + 1..] && y == s[|b| + 1..];
  }

  /** The two characters are equal up to ASCII case. */
  predicate SameLetter(c: char, d: char) {
    c == d || ('A' <= c <= 'Z' && c as int + 32 == d as int) || ('A' <= d <= 'Z' && d as int + 32 == c as int)
  }

  /** Lowering identifies exactly what differs in case, and leaves no capital. */
  lemma LowerIff(a: string, b: string)
    ensures Lower(a) == Lower(b) <==> |a| == |b| && forall i | 0 <= i < |a| :: SameLetter(a[i], b[i])
    ensures forall i | 0 <= i < |Lower(a)| :: !('A' <= Lower(a)[i] <= 'Z')
  {
    if Lower(a) == Lower(b) {
      assert |Lower(a)| == |a|;
      forall i | 0 <= i < |a| ensures SameLetter(a[i], b[i]) { assert Lower(a)[i] == Lower(b)[i]; }
    }
  }

  lemma {:induction false} TrimLeftIs(s: string) returns (k: nat)
    ensures k <= |s| && TrimLeft(s) == s[k..] && (forall i | 0 <= i < k :: IsSpace(s[i]))
    ensures k < |s| ==> !IsSpace(s[k])
    decreases |s|
  {
    if s != "" && IsSpace(s[0]) {
      var rest := TrimLeftIs(s[1..]);
      k := rest + 1;
      assert s[1..][rest..] == s[k..];
    } else {
      k := 0;
    }
  }

  lemma {:induction false} TrimRightIs(s: string) returns (k: nat)
    ensures k <= |s| && TrimRight(s) == s[..k] && (forall i | k <= i < |s| :: IsSpace(s[i]))
    ensures k > 0 ==> !IsSpace(s[k - 1])
    decreases |s|
  {
    if s != "" && IsSpace(s[|s| - 1]) {
      k := TrimRightIs(s[..|s| - 1]);
      assert s[..|s| - 1][..k] == s[..k];
    } else {
      k := |s|;
      assert s[..k] == s;
    }
  }

  /** Trimming takes away white space at both ends, and all of it. */
  lemma TrimSpaceIs(s: string) returns (front: string, back: string)
    ensures s == front + TrimSpace(s) + back
    ensures (forall i | 0 <= i < |front| :: IsSpace(front[i])) && (forall i | 0 <= i < |back| :: IsSpace(back[i]))
    ensures var t := TrimSpace(s); t != "" ==> !IsSpace(t[0]) && !IsSpace(t[|t| - 1])
  {
    var k := TrimLeftIs(s);
    var left := TrimLeft(s);
    var m := TrimRightIs(left);
    front, back := s[..k], left[m..];
    assert s == s[..k] + left && left == left[..m] + left[m..];
    assert s == front + (left[..m] + back);
    assert front + (left[..m] + back) == front + left[..m] + back;
  }

  /** The white space of ASCII: tab, line feed, vertical tab, form feed, carriage return, blank. */
  lemma SpacesAre(c: char)
    ensures IsSpace(c) <==> 9 <= c as int <= 13 || c as int == 32
  {
  }

  predicate HasPrefix(s: string, prefix: string) {
    |prefix| <= |s| && s[..|prefix|] == prefix
  }

  /** Byte-wise lexicographic order, the order of Go's `<` on strings. */
  predicate StringLess(a: string, b: string) {
    if b == "" then false
    else if a == "" then true
    else if a[0] != b[0] then a[0] < b[0]
    else StringLess(a[1..], b[1..])
  }

  lemma {:induction false} StringLessTransitive(a: string, b: string, c: string)
    requires StringLess(a, b) && StringLess(b, c)
    ensures StringLess(a, c)
  {
    if a != "" && a[0] == b[0] && b[0] == c[0] {
      StringLessTransitive(a[1..], b[1..], c[1..]);
    }
  }

  lemma {:induction false} StringLessTotal(a: string, b: string)
    ensures StringLess(a, b) || StringLess(b, a) || a == b
    ensures !(StringLess(a, b) && StringLess(b, a))
    ensures a == b ==> !StringLess(a, b)
  {
    if a != "" && b != "" && a[0] == b[0] {
      StringLessTotal(a[1..], b[1..]);
      assert a == [a[0]] + a[1..] && b == [b[0]] + b[1..];
    }
  }

  /** The order is that of a dictionary: by the first difference, or the shorter text first. */
  lemma {:induction false} StringLessIff(a: string, b: string, k: nat)
    requires k <= |a| && k <= |b| && a[..k] == b[..k]
    requires (k == |a| && k == |b|) || k == |a| < |b| || k == |b| < |a| || (k < |a| && k < |b| && a[k] != b[k])
    ensures StringLess(a, b) <==> k < |b| && (k == |a| || a[k] < b[k])
    decreases k
  {
    if k > 0 {
      assert a[0] == a[..k][0] == b[..k][0] == b[0];
      assert a[1..][..k - 1] == a[..k][1..] == b[..k][1..] == b[1..][..k - 1];
      StringLessIff(a[1..], b[1..], k - 1);
    }
  }

  ghost predicate StrictlyAscending(s: seq<string>) {
    Orders.Listed(StringLess, s)
  }

  /** A set of strings has only one strictly ascending listing. */
  lemma AscendingListingUnique(a: seq<string>, b: seq<string>)
    requires StrictlyAscending(a) && StrictlyAscending(b)
    requires forall x :: x in a <==> x in b
    ensures a == b
  {
    forall x, y | StringLess(x, y) ensures !StringLess(y, x) { StringLessTotal(x, y); }
    Orders.ListingUnique(StringLess, a, b);
  }

  /** `sort.Strings` on a list without repetitions. */
  method SortStrings(s: seq<string>) returns (sorted: seq<string>)
    requires forall i, j :: 0 <= i < j < |s| ==> s[i] != s[j]
    ensures StrictlyAscending(sorted)
    ensures forall x :: x in sorted <==> x in s
  {
    sorted := [];
    for n := 0 to |s|
      invariant StrictlyAscending(sorted)
      invariant forall x :: x in sorted <==> x in s[..n]
    {
      var at := 0;
      while at < |sorted| && StringLess(sorted[at], s[n])
        invariant 0 <= at <= |sorted|
        invariant forall i :: 0 <= i < at ==> StringLess(sorted[i], s[n])
      {
        at := at + 1;
      }
      InsertKeepsAscending(sorted, at, s[n]) by {
        assert s[n] !in s[..n];
      }
      assert s[..n + 1] == s[..n] + [s[n]];
      var inserted := sorted[..at] + [s[n]] + sorted[at..];
      assert forall x :: x in sorted <==> x in sorted[..at] || x in sorted[at..] by {
        assert sorted == sorted[..at] + sorted[at..];
      }
      sorted := inserted;
    }
    assert s[..|s|] == s;
  }

  lemma InsertKeepsAscending(s: seq<string>, at: nat, x: string)
    requires StrictlyAscending(s) && at <= |s| && x !in s
    requires forall i :: 0 <= i < at ==> StringLess(s[i], x)
    requires at < |s| ==> !StringLess(s[at], x)
    ensures StrictlyAscending(s[..at] + [x] + s[at..])
  {
    forall j | at <= j < |s| ensures StringLess(x, s[j]) {
      StringLessTotal(s[at], x);
      if j != at { StringLessTransitive(x, s[at], s[j]); }
    }
  }
}
