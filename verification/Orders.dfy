/** Sequences listed in a strict order. */
module Orders {

  ghost predicate Listed<T(!new)>(before: (T, T) -> bool, s: seq<T>) {
    forall i, j | 0 <= i < j < |s| :: before(s[i], s[j])
  }

  ghost predicate Asymmetric<T(!new)>(before: (T, T) -> bool) {
    forall x, y | before(x, y) :: !before(y, x)
  }

  lemma FirstIsMember<T>(s: seq<T>)
    ensures s != [] ==> s[0] in s
  {
  }

  lemma LaterMember<T>(s: seq<T>, x: T)
    requires s != [] && x in s && x != s[0]
    ensures x in s[1..]
  {
    var k :| 0 <= k < |s| && s[k] == x;
    assert s[1..][k - 1] == x;
  }

  lemma FirstComesFirst<T(!new)>(before: (T, T) -> bool, s: seq<T>, x: T)
    requires Listed(before, s) && s != [] && x in s && x != s[0]
    ensures before(s[0], x)
  {
    var k :| 0 <= k < |s| && s[k] == x;
  }

  /** A collection has only one listing in a strict order. */
  lemma {:induction false} ListingUnique<T(!new)>(before: (T, T) -> bool, a: seq<T>, b: seq<T>)
    requires Asymmetric(before) && Listed(before, a) && Listed(before, b)
    requires forall x :: x in a <==> x in b
    ensures a == b
  {
    if a == [] {
      FirstIsMember(b);
    } else {
      assert a[0] in b && b[0] in a;
      if a[0] != b[0] {
        FirstComesFirst(before, a, b[0]);
        FirstComesFirst(before, b, a[0]);
      }
      forall x ensures x in a[1..] <==> x in b[1..] {
        if x in a[1..] { assert before(a[0], x) && x in a; LaterMember(b, x); }
        if x in b[1..] { assert before(b[0], x) && x in b; LaterMember(a, x); }
      }
      ListingUnique(before, a[1..], b[1..]);
      assert a == [a[0]] + a[1..] && b == [b[0]] + b[1..];
    }
  }
}
