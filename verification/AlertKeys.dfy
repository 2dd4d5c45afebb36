/** What a deduplication key says about an alert. The key joins the receiver and four upstream
    identifiers with colons, and escapes none that the identifiers contain. */
module AlertKeys {
  import opened Text
  import opened Alerts

  /** The upstream identifiers of an alert that enter its key. */
  datatype Name = Name(monitorId: string, triggerId: string, alertId: string, bucketKey: string)

  function NameOf(event: Event): Name {
    Name(event.monitorId, event.triggerId, event.alertId, event.bucketKey)
  }

  function Joined(a: string, b: string): string {
    a + [':'] + b
  }

  function JoinedName(name: Name): string {
    Joined(name.monitorId, Joined(name.triggerId, Joined(name.alertId, name.bucketKey)))
  }

  lemma JoinedAssociative(a: string, b: string, c: string)
    ensures Joined(Joined(a, b), c) == Joined(a, Joined(b, c))
  {
  }

  lemma KeyIsJoined(receiver: Receiver, event: Event)
    ensures DedupKey(receiver, event) == Joined("opensearch", Joined(receiver.id, JoinedName(NameOf(event))))
  {
    var r, m, t, a, b := receiver.id, event.monitorId, event.triggerId, event.alertId, event.bucketKey;
    var s1 := Joined("opensearch", r);
    var s2 := Joined(s1, m);
    var s3 := Joined(s2, t);
    assert DedupKey(receiver, event) == Joined(Joined(s3, a), b) by {
      assert "opensearch:" == "opensearch" + [':'] && ":" == [':'];
    }
    JoinedAssociative(s3, a, b);
    JoinedAssociative(s2, t, Joined(a, b));
    JoinedAssociative(s1, m, Joined(t, Joined(a, b)));
    JoinedAssociative("opensearch", r, JoinedName(NameOf(event)));
  }

  lemma KeysEqualIffNamesJoinAlike(receiver: Receiver, event: Event, other: Event)
    ensures DedupKey(receiver, event) == DedupKey(receiver, other) <==> JoinedName(NameOf(event)) == JoinedName(NameOf(other))
  {
    KeyIsJoined(receiver, event);
    KeyIsJoined(receiver, other);
    var front := Joined("opensearch", receiver.id) + [':'];
    JoinedAssociative("opensearch", receiver.id, JoinedName(NameOf(event)));
    JoinedAssociative("opensearch", receiver.id, JoinedName(NameOf(other)));
    assert DedupKey(receiver, event)[|front|..] == JoinedName(NameOf(event));
    assert DedupKey(receiver, other)[|front|..] == JoinedName(NameOf(other));
  }

  // ---------------------------------------------------------------- when a key is shared

  function Colons(s: string): nat {
    if s == "" then 0 else (if s[0] == ':' then 1 else 0) + Colons(s[1..])
  }

  lemma {:induction false} ColonsConcat(a: string, b: string)
    ensures Colons(a + b) == Colons(a) + Colons(b)
  {
    if a == "" {
      assert a + b == b;
    } else {
      assert (a + b)[1..] == a[1..] + b;
      ColonsConcat(a[1..], b);
    }
  }

  lemma ColonsOfJoined(a: string, b: string)
    ensures Colons(Joined(a, b)) == Colons(a) + 1 + Colons(b)
  {
    ColonsConcat(a + [':'], b);
    ColonsConcat(a, [':']);
    assert [':'][1..] == "";
  }

  lemma {:induction false} NoColons(s: string)
    ensures Colons(s) == 0 <==> ':' !in s
  {
    if s != "" {
      NoColons(s[1..]);
      assert s == [s[0]] + s[1..];
    }
  }

  function NameColons(name: Name): nat {
    Colons(name.monitorId) + Colons(name.triggerId) + Colons(name.alertId) + Colons(name.bucketKey)
  }

  lemma ColonsOfName(name: Name)
    ensures Colons(JoinedName(name)) == NameColons(name) + 3
  {
    ColonsOfJoined(name.alertId, name.bucketKey);
    ColonsOfJoined(name.triggerId, Joined(name.alertId, name.bucketKey));
    ColonsOfJoined(name.monitorId, Joined(name.triggerId, Joined(name.alertId, name.bucketKey)));
  }

  predicate HasColon(name: Name) {
    ':' in name.monitorId || ':' in name.triggerId || ':' in name.alertId || ':' in name.bucketKey
  }

  lemma HasColonIff(name: Name)
    ensures HasColon(name) <==> NameColons(name) > 0
  {
    NoColons(name.monitorId);
    NoColons(name.triggerId);
    NoColons(name.alertId);
    NoColons(name.bucketKey);
  }

  /** Monitor and trigger are read off the front of the joined name, the bucket off its end. */
  lemma JoinedNameSplits(name: Name, other: Name)
    requires JoinedName(name) == JoinedName(other)
    requires ':' !in name.monitorId && ':' !in name.triggerId && ':' !in name.bucketKey
    requires ':' !in other.monitorId && ':' !in other.triggerId && ':' !in other.bucketKey
    ensures name == other
  {
    SplitAtFirst(':', name.monitorId, Joined(name.triggerId, Joined(name.alertId, name.bucketKey)),
                 other.monitorId, Joined(other.triggerId, Joined(other.alertId, other.bucketKey)));
    SplitAtFirst(':', name.triggerId, Joined(name.alertId, name.bucketKey),
                 other.triggerId, Joined(other.alertId, other.bucketKey));
    SplitAtLast(':', name.alertId, name.bucketKey, other.alertId, other.bucketKey);
  }

  lemma FirstColon(s: string) returns (front: string, back: string)
    requires ':' in s
    ensures s == Joined(front, back)
  {
    var k :| 0 <= k < |s| && s[k] == ':';
    front, back := s[..k], s[k + 1..];
  }

  /** A colon in one part can be taken for the one between two parts. */
  lemma ShiftedName(name: Name) returns (other: Name)
    requires HasColon(name)
    ensures other != name && JoinedName(other) == JoinedName(name)
  {
    var m, t, a, b := name.monitorId, name.triggerId, name.alertId, name.bucketKey;
    if ':' in m {
      var p, q := FirstColon(m);
      other := Name(p, Joined(q, t), a, b);
      JoinedAssociative(q, t, Joined(a, b));
      JoinedAssociative(p, q, Joined(t, Joined(a, b)));
      assert |p| < |m|;
    } else if ':' in t {
      var p, q := FirstColon(t);
      other := Name(Joined(m, p), q, a, b);
      JoinedAssociative(p, q, Joined(a, b));
      JoinedAssociative(m, p, Joined(q, Joined(a, b)));
      assert |Joined(m, p)| > |m|;
    } else if ':' in a {
      var p, q := FirstColon(a);
      other := Name(m, Joined(t, p), q, b);
      JoinedAssociative(p, q, b);
      JoinedAssociative(t, p, Joined(q, b));
      assert |Joined(t, p)| > |t|;
    } else {
      var p, q := FirstColon(b);
      other := Name(m, t, Joined(a, p), q);
      JoinedAssociative(a, p, q);
      assert |Joined(a, p)| > |a|;
    }
  }

  /** Another alert of the same receiver has the same key exactly when one of the four upstream
      identifiers contains a colon. */
  lemma KeyIsSharedIff(receiver: Receiver, event: Event)
    ensures (exists other: Event :: DedupKey(receiver, other) == DedupKey(receiver, event) && NameOf(other) != NameOf(event))
            <==> HasColon(NameOf(event))
  {
    var name := NameOf(event);
    if other: Event :| DedupKey(receiver, other) == DedupKey(receiver, event) && NameOf(other) != name {
      KeysEqualIffNamesJoinAlike(receiver, event, other);
      ColonsOfName(name);
      ColonsOfName(NameOf(other));
      HasColonIff(name);
      HasColonIff(NameOf(other));
      if !HasColon(name) { JoinedNameSplits(name, NameOf(other)); }
    }
    if HasColon(name) {
      var n := ShiftedName(name);
      var other := event.(monitorId := n.monitorId, triggerId := n.triggerId, alertId := n.alertId, bucketKey := n.bucketKey);
      KeysEqualIffNamesJoinAlike(receiver, event, other);
      assert NameOf(other) == n;
    }
  }

  /** Monitor, trigger and bucket without colons: the parts that normalisation does not compose. */
  predicate PlainParts(event: Event) {
    ':' !in event.monitorId && ':' !in event.triggerId && ':' !in event.bucketKey
  }

  /** Among the events whose monitor, trigger and bucket contain no colon, the key identifies the
      alert, whatever the alert identifier is; the receiver too, as its identifier has no colon. */
  lemma KeyIdentifiesAlert(receiver: Receiver, event: Event, from: Receiver, other: Event)
    requires ':' !in receiver.id && ':' !in from.id && PlainParts(event) && PlainParts(other)
    ensures DedupKey(receiver, event) == DedupKey(from, other) <==> receiver.id == from.id && NameOf(event) == NameOf(other)
  {
    KeyIsJoined(receiver, event);
    KeyIsJoined(from, other);
    if DedupKey(receiver, event) == DedupKey(from, other) {
      SplitAtFirst(':', "opensearch", Joined(receiver.id, JoinedName(NameOf(event))),
                   "opensearch", Joined(from.id, JoinedName(NameOf(other))));
      SplitAtFirst(':', receiver.id, JoinedName(NameOf(event)), from.id, JoinedName(NameOf(other)));
      JoinedNameSplits(NameOf(event), NameOf(other));
    }
  }
}
