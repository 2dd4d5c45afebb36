/** The test lab's MAC scheme: the printer and the parser of the `Authorization` header, the
    verifier's recomputation, and the nonce replay window. The keyed hash is a parameter.
    Clock readings and windows are nanoseconds. */
module MacAuth {
  import opened Outcomes
  import opened Text
  import opened Numerals
  import opened Base64

  const MILLISECOND: int := 1_000_000

  // ---------------------------------------------------------------- the header

  datatype Field = Field(name: string, value: string)

  predicate IsLetter(c: char) {
    'a' <= c <= 'z'
  }

  function Letters(s: string): (n: nat)
    ensures n <= |s| && forall i | 0 <= i < n :: IsLetter(s[i])
    ensures n < |s| ==> !IsLetter(s[n])
  {
    if s != "" && IsLetter(s[0]) then 1 + Letters(s[1..]) else 0
  }

  /** The characters before the first quotation mark. */
  function Unquoted(s: string): (n: nat)
    ensures n <= |s| && '\"' !in s[..n]
    ensures n < |s| ==> s[n] == '\"'
  {
    if s != "" && s[0] != '\"' then
      var n := Unquoted(s[1..]);
      assert s[..n + 1] == [s[0]] + s[1..][..n];
      n + 1
    else 0
  }

  datatype Match = Match(field: Field, rest: string)

  /** The pattern `([a-z]+)="([^"]*)"` at the start of `s`. */
  function MatchHere(s: string): (m: Option<Match>)
    ensures m.Some? ==> |m.value.rest| < |s| && '\"' !in m.value.field.value
  {
    var n := Letters(s);
    if n == 0 || n + 1 >= |s| || s[n] != '=' || s[n + 1] != '\"' then None
    else
      var tail := s[n + 2..];
      var k := Unquoted(tail);
      if k == |tail| then None else Some(Match(Field(s[..n], tail[..k]), tail[k + 1..]))
  }

  /** `FindAllStringSubmatch`: all matches from left to right, none overlapping. */
  function FindAll(s: string): seq<Field>
    decreases |s|
  {
    if s == "" then []
    else
      match MatchHere(s)
      case None => FindAll(s[1..])
      case Some(m) => [m.field] + FindAll(m.rest)
  }

  function Collect(fields: seq<Field>): map<string, string> {
    if fields == [] then map[]
    else Collect(fields[..|fields| - 1])[fields[|fields| - 1].name := fields[|fields| - 1].value]
  }

  /** What `parseMAC` returns. */
  function Fields(header: string): map<string, string> {
    if HasPrefix(header, "MAC ") then Collect(FindAll(header[4..])) else map[]
  }

  method ParseMac(header: string) returns (out: map<string, string>)
    ensures out == Fields(header)
  {
    out := map[];
    if !HasPrefix(header, "MAC ") { return; }
    var pairs := FindAll(header[4..]);
    for n := 0 to |pairs|
      invariant out == Collect(pairs[..n])
    {
      assert pairs[..n + 1][..n] == pairs[..n];
      out := out[pairs[n].name := pairs[n].value];
    }
    assert pairs[..|pairs|] == pairs;
  }

  function Pair(f: Field): string {
    f.name + "=\"" + f.value + "\""
  }

  /** Pairs joined by commas, the `Sprintf` format of `MACSignature`. */
  function Joined(fields: seq<Field>): string {
    if fields == [] then ""
    else if |fields| == 1 then Pair(fields[0])
    else Pair(fields[0]) + "," + Joined(fields[1..])
  }

  ghost predicate Printable(f: Field) {
    f.name != "" && (forall i | 0 <= i < |f.name| :: IsLetter(f.name[i])) && '\"' !in f.value
  }

  lemma {:induction false} LettersOf(name: string, rest: string)
    requires forall i | 0 <= i < |name| :: IsLetter(name[i])
    requires rest != "" ==> !IsLetter(rest[0])
    ensures Letters(name + rest) == |name|
  {
    if name != "" {
      assert (name + rest)[1..] == name[1..] + rest;
      LettersOf(name[1..], rest);
    } else {
      assert name + rest == rest;
    }
  }

  lemma {:induction false} UnquotedOf(value: string, rest: string)
    requires '\"' !in value && rest != "" && rest[0] == '\"'
    ensures Unquoted(value + rest) == |value|
  {
    if value != "" {
      assert (value + rest)[1..] == value[1..] + rest;
      UnquotedOf(value[1..], rest);
    } else {
      assert value + rest == rest;
    }
  }

  /** The text of a pair and what follows, cut at the opening quotation mark. */
  lemma PairShape(f: Field, rest: string)
    ensures var s, tail := Pair(f) + rest, f.value + ("\"" + rest);
            && s == f.name + ("=\"" + tail)
            && |s| > |f.name| + 2 && s[..|f.name|] == f.name
            && s[|f.name|] == '=' && s[|f.name| + 1] == '\"' && s[|f.name| + 2..] == tail
            && |tail| > |f.value| && tail[..|f.value|] == f.value && tail[|f.value| + 1..] == rest
  {
    assert Pair(f) + rest == f.name + ("=\"" + (f.value + ("\"" + rest)));
  }

  lemma MatchPair(f: Field, rest: string)
    requires Printable(f)
    ensures MatchHere(Pair(f) + rest) == Some(Match(f, rest))
  {
    var tail := f.value + ("\"" + rest);
    PairShape(f, rest);
    LettersOf(f.name, "=\"" + tail);
    UnquotedOf(f.value, "\"" + rest);
  }

  /** The parser finds exactly the pairs that were printed, in order. */
  lemma {:induction false} FindJoined(fields: seq<Field>)
    requires forall i | 0 <= i < |fields| :: Printable(fields[i])
    ensures FindAll(Joined(fields)) == fields
  {
    if |fields| == 1 {
      MatchPair(fields[0], "");
      assert Joined(fields) == Pair(fields[0]) + "";
      assert FindAll("") == [];
    } else if |fields| > 1 {
      var rest := Joined(fields[1..]);
      assert Joined(fields) == Pair(fields[0]) + ("," + rest);
      MatchPair(fields[0], "," + rest);
      assert ("," + rest)[1..] == rest;
      assert MatchHere("," + rest) == None;
      FindJoined(fields[1..]);
    }
  }

  /** The match at the start of a text, without the search: it is the pair with a name of small
      letters and a value without quotation marks that the text begins with, if there is one. */
  lemma MatchHereIff(s: string, name: string, value: string, rest: string)
    ensures MatchHere(s) == Some(Match(Field(name, value), rest)) <==>
            && s == name + "=\"" + value + "\"" + rest
            && name != "" && (forall i | 0 <= i < |name| :: 'a' <= name[i] <= 'z') && '\"' !in value
  {
    if MatchHere(s) == Some(Match(Field(name, value), rest)) {
      MatchedText(s, name, value, rest);
    }
    if s == name + "=\"" + value + "\"" + rest
       && name != "" && (forall i | 0 <= i < |name| :: 'a' <= name[i] <= 'z') && '\"' !in value {
      MatchPair(Field(name, value), rest);
    }
  }

  lemma MatchedText(s: string, name: string, value: string, rest: string)
    requires MatchHere(s) == Some(Match(Field(name, value), rest))
    ensures s == name + "=\"" + value + "\"" + rest
    ensures name != "" && (forall i | 0 <= i < |name| :: 'a' <= name[i] <= 'z') && '\"' !in value
  {
    var n := Letters(s);
    var k := Unquoted(s[n + 2..]);
    CutInFive(s, n, n + 2, n + 2 + k);
    MatchedLetters(s);
  }

  lemma MatchedLetters(s: string)
    ensures forall i | 0 <= i < |s[..Letters(s)]| :: 'a' <= s[..Letters(s)][i] <= 'z'
  {
    assert forall i | 0 <= i < Letters(s) :: IsLetter(s[i]);
  }

  lemma CutInFive(s: string, a: nat, b: nat, c: nat)
    requires b == a + 2 <= c < |s| && s[a] == '=' && s[a + 1] == '\"' && s[c] == '\"'
    ensures s == s[..a] + "=\"" + s[b..][..c - b] + "\"" + s[b..][c - b + 1..]
  {
  }

  /** The matches of a text are the one at the first place where there is one, and those of the
      text after it. */
  lemma {:induction false} FindAllFromFirst(s: string, k: nat)
    requires k < |s| && MatchHere(s[k..]).Some? && forall i | 0 <= i < k :: MatchHere(s[i..]).None?
    ensures FindAll(s) == [MatchHere(s[k..]).value.field] + FindAll(MatchHere(s[k..]).value.rest)
    decreases k
  {
    assert s[0..] == s;
    if k > 0 {
      assert s[1..][k - 1..] == s[k..];
      forall i | 0 <= i < k - 1 ensures MatchHere(s[1..][i..]).None? { assert s[1..][i..] == s[i + 1..]; }
      FindAllFromFirst(s[1..], k - 1);
    }
  }

  /** Where a name occurs more than once, its last value counts. */
  lemma {:induction false} LastValueCounts(fields: seq<Field>, k: nat)
    requires k < |fields| && forall i | k < i < |fields| :: fields[i].name != fields[k].name
    ensures fields[k].name in Collect(fields) && Collect(fields)[fields[k].name] == fields[k].value
    decreases |fields|
  {
    if k < |fields| - 1 { LastValueCounts(fields[..|fields| - 1], k); }
  }

  lemma {:induction false} FoundValuesArePlain(s: string)
    ensures forall i | 0 <= i < |FindAll(s)| :: '\"' !in FindAll(s)[i].value
    decreases |s|
  {
    if s != "" {
      match MatchHere(s)
      case None => FoundValuesArePlain(s[1..]);
      case Some(m) => FoundValuesArePlain(m.rest);
    }
  }

  lemma {:induction false} CollectedComeFrom(fields: seq<Field>, name: string)
    requires name in Collect(fields)
    ensures Field(name, Collect(fields)[name]) in fields
  {
    var last := fields[|fields| - 1];
    if name != last.name { CollectedComeFrom(fields[..|fields| - 1], name); }
    else { assert last == Field(name, Collect(fields)[name]); }
  }

  function Header(key: string, timestamp: string, nonce: string, bodyHash: string, mac: string): string {
    "MAC " + Joined([Field("id", key), Field("ts", timestamp), Field("nonce", nonce),
                     Field("bodyhash", bodyHash), Field("mac", mac)])
  }

  /** The header survives printing and parsing exactly when key, timestamp and nonce contain
      no quotation mark. The two hashes are base64 and never do. */
  lemma HeaderRoundTrip(key: string, timestamp: string, nonce: string, bodyHash: string, mac: string)
    requires '\"' !in bodyHash && '\"' !in mac
    ensures Fields(Header(key, timestamp, nonce, bodyHash, mac))
            == map["id" := key, "ts" := timestamp, "nonce" := nonce, "bodyhash" := bodyHash, "mac" := mac]
            <==> '\"' !in key && '\"' !in timestamp && '\"' !in nonce
  {
    var fields := [Field("id", key), Field("ts", timestamp), Field("nonce", nonce),
                   Field("bodyhash", bodyHash), Field("mac", mac)];
    var header := Header(key, timestamp, nonce, bodyHash, mac);
    assert header[4..] == Joined(fields) && HasPrefix(header, "MAC ");
    if '\"' !in key && '\"' !in timestamp && '\"' !in nonce {
      FindJoined(fields);
      CollectFive(key, timestamp, nonce, bodyHash, mac);
    }
    if Fields(header) == map["id" := key, "ts" := timestamp, "nonce" := nonce, "bodyhash" := bodyHash, "mac" := mac] {
      FoundValuesArePlain(Joined(fields));
      CollectedComeFrom(FindAll(Joined(fields)), "id");
      CollectedComeFrom(FindAll(Joined(fields)), "ts");
      CollectedComeFrom(FindAll(Joined(fields)), "nonce");
    }
  }

  lemma CollectFive(key: string, timestamp: string, nonce: string, bodyHash: string, mac: string)
    ensures Collect([Field("id", key), Field("ts", timestamp), Field("nonce", nonce),
                     Field("bodyhash", bodyHash), Field("mac", mac)])
            == map["id" := key, "ts" := timestamp, "nonce" := nonce, "bodyhash" := bodyHash, "mac" := mac]
  {
    var a, b, c, d, e := Field("id", key), Field("ts", timestamp), Field("nonce", nonce),
                         Field("bodyhash", bodyHash), Field("mac", mac);
    assert [a, b, c, d, e][..4] == [a, b, c, d];
    assert [a, b, c, d][..3] == [a, b, c];
    assert [a, b, c][..2] == [a, b];
    assert [a, b][..1] == [a];
    assert [a][..0] == [];
    assert Collect([a]) == map["id" := key];
    assert Collect([a, b]) == map["id" := key, "ts" := timestamp];
    assert Collect([a, b, c]) == map["id" := key, "ts" := timestamp, "nonce" := nonce];
    assert Collect([a, b, c, d]) == map["id" := key, "ts" := timestamp, "nonce" := nonce, "bodyhash" := bodyHash];
  }

  // ---------------------------------------------------------------- signing and verifying

  /** The raw bytes of HMAC-SHA256 for a message and a secret. */
  type Hash = (string, string) -> string

  ghost predicate YieldsBytes(hash: Hash) {
    forall message, secret :: IsBytes(hash(message, secret))
  }

  function HmacBase64(hash: Hash, message: string, secret: string): string
    requires YieldsBytes(hash)
  {
    EncodePadded(hash(message, secret))
  }

  /** The parts of a request that are signed, as both sides derive them from the URL. */
  datatype Target = Target(verb: string, resource: string, host: string, port: string)

  function Canonical(timestamp: string, nonce: string, target: Target, bodyHash: string): string {
    timestamp + "\n" + nonce + "\n" + target.verb + "\n" + target.resource + "\n"
    + target.host + "\n" + target.port + "\n" + bodyHash + "\n"
  }

  /** `MACSignature` */
  function Sign(hash: Hash, target: Target, body: string, timestamp: string, nonce: string, key: string, secret: string): string
    requires YieldsBytes(hash)
  {
    var bodyHash := HmacBase64(hash, body, secret);
    Header(key, timestamp, nonce, bodyHash,
           HmacBase64(hash, Canonical(timestamp, nonce, target, bodyHash), secret))
  }

  /** `time.Since` as a 64-bit duration, which saturates. */
  function Since(now: int, then_: int): int {
    var d := now - then_;
    if d > MAX_INT64 then MAX_INT64 else if d < MIN_INT64 then MIN_INT64 else d
  }

  datatype TimestampCheck = Valid | Invalid | Expired | InFuture

  /** `validateTimestamp` at the clock reading `now`. */
  function CheckTimestamp(raw: string, now: int, window: int): TimestampCheck {
    match ParseInt64(raw)
    case None => Invalid
    case Some(milliseconds) =>
      var delta := Since(now, milliseconds * MILLISECOND);
      if delta > window then Expired else if delta < -window then InFuture else Valid
  }

  function Lookup(fields: map<string, string>, name: string): string {
    if name in fields then fields[name] else ""
  }

  /** The checks of `macAuth` before the replay window, for a server that knows one key and its
      secret. */
  predicate Authenticated(
    hash: Hash, key: string, secret: string, target: Target, body: string, maxBody: nat,
    header: string, now: int, window: int)
    requires YieldsBytes(hash)
  {
    var read := if |body| <= maxBody then body else body[..maxBody];
    var fields := Fields(header);
    var timestamp, nonce := Lookup(fields, "ts"), Lookup(fields, "nonce");
    var bodyHash := HmacBase64(hash, read, secret);
    && CheckTimestamp(timestamp, now, window) == Valid
    && Lookup(fields, "id") == key
    && 8 <= |nonce| <= 128
    && Lookup(fields, "bodyhash") == bodyHash
    && Lookup(fields, "mac") == HmacBase64(hash, Canonical(timestamp, nonce, target, bodyHash), secret)
  }

  /** The formats that clients and the lab agree on, on an example of one letter for each part. */
  lemma SignedText()
    ensures Canonical("t", "n", Target("v", "r", "h", "p"), "b") == "t\nn\nv\nr\nh\np\nb\n"
  {
  }

  lemma SignedHeader(i: string, t: string, n: string, b: string, m: string)
    ensures Header(i, t, n, b, m) ==
            "MAC " + ("id" + "=\"" + i + "\"" + "," + ("ts" + "=\"" + t + "\"" + "," + ("nonce" + "=\"" + n + "\"" + ","
            + ("bodyhash" + "=\"" + b + "\"" + "," + ("mac" + "=\"" + m + "\"")))))
  {
    var fs := [Field("id", i), Field("ts", t), Field("nonce", n), Field("bodyhash", b), Field("mac", m)];
    JoinedCons(fs[0], fs[1..]);
    JoinedCons(fs[1], fs[2..]);
    JoinedCons(fs[2], fs[3..]);
    JoinedCons(fs[3], fs[4..]);
    assert fs == [fs[0]] + fs[1..] && fs[1..] == [fs[1]] + fs[2..] && fs[2..] == [fs[2]] + fs[3..] && fs[3..] == [fs[3]] + fs[4..];
    assert Joined(fs[4..]) == "mac" + "=\"" + m + "\"";
  }

  lemma JoinedCons(f: Field, rest: seq<Field>)
    requires rest != []
    ensures Joined([f] + rest) == f.name + "=\"" + f.value + "\"" + "," + Joined(rest)
  {
    assert ([f] + rest)[1..] == rest;
  }

  lemma HonestFields(
    hash: Hash, key: string, secret: string, target: Target, body: string, timestamp: string, nonce: string)
    requires YieldsBytes(hash) && '\"' !in key && '\"' !in timestamp && '\"' !in nonce
    ensures var fields := Fields(Sign(hash, target, body, timestamp, nonce, key, secret));
            var bodyHash := HmacBase64(hash, body, secret);
            && Lookup(fields, "id") == key && Lookup(fields, "ts") == timestamp && Lookup(fields, "nonce") == nonce
            && Lookup(fields, "bodyhash") == bodyHash
            && Lookup(fields, "mac") == HmacBase64(hash, Canonical(timestamp, nonce, target, bodyHash), secret)
  {
    var bodyHash := HmacBase64(hash, body, secret);
    var message := Canonical(timestamp, nonce, target, bodyHash);
    var mac := HmacBase64(hash, message, secret);
    PaddedHasNoQuote(hash(body, secret));
    PaddedHasNoQuote(hash(message, secret));
    HeaderRoundTrip(key, timestamp, nonce, bodyHash, mac);
  }

  /** A request signed with the server's key and secret, for the same target and for a body
      within the limit, passes exactly when its timestamp is in the window and its nonce has an
      accepted length; the verifier has then recomputed the signed text and both hashes. */
  lemma HonestRequestPasses(
    hash: Hash, key: string, secret: string, target: Target, body: string, maxBody: nat,
    timestamp: string, nonce: string, now: int, window: int)
    requires YieldsBytes(hash) && |body| <= maxBody
    requires '\"' !in key && '\"' !in timestamp && '\"' !in nonce
    ensures Authenticated(hash, key, secret, target, body, maxBody,
                          Sign(hash, target, body, timestamp, nonce, key, secret), now, window)
            <==> CheckTimestamp(timestamp, now, window) == Valid && 8 <= |nonce| <= 128
  {
    HonestFields(hash, key, secret, target, body, timestamp, nonce);
  }

  /** What the server has read of a body. */
  function Received(body: string, maxBody: nat): string {
    if |body| <= maxBody then body else body[..maxBody]
  }

  /** Whatever the header, it passes exactly when its five fields are those of the header that
      the server itself would sign for the request at hand, with the timestamp and the nonce
      of the header, and these two are acceptable. */
  lemma PassesIffFieldsSigned(
    hash: Hash, key: string, secret: string, target: Target, body: string, maxBody: nat,
    header: string, now: int, window: int)
    requires YieldsBytes(hash) && '\"' !in key
    ensures var fields := Fields(header);
            var timestamp, nonce := Lookup(fields, "ts"), Lookup(fields, "nonce");
            var signed := Fields(Sign(hash, target, Received(body, maxBody), timestamp, nonce, key, secret));
            Authenticated(hash, key, secret, target, body, maxBody, header, now, window) <==>
            && Lookup(fields, "id") == Lookup(signed, "id")
            && Lookup(fields, "bodyhash") == Lookup(signed, "bodyhash")
            && Lookup(fields, "mac") == Lookup(signed, "mac")
            && CheckTimestamp(timestamp, now, window) == Valid && 8 <= |nonce| <= 128
  {
    FieldIsPlain(header, "ts");
    FieldIsPlain(header, "nonce");
    HonestFields(hash, key, secret, target, Received(body, maxBody), Lookup(Fields(header), "ts"), Lookup(Fields(header), "nonce"));
  }

  lemma FieldIsPlain(header: string, name: string)
    ensures '\"' !in Lookup(Fields(header), name)
  {
    if name in Fields(header) {
      FoundValuesArePlain(header[4..]);
      CollectedComeFrom(FindAll(header[4..]), name);
    }
  }

  /** A header in the agreed format passes exactly when it is the signed header: with another
      identifier, another body hash or another MAC it is refused. */
  lemma PassesIffSigned(
    hash: Hash, key: string, secret: string, target: Target, body: string, maxBody: nat,
    id: string, timestamp: string, nonce: string, bodyHash: string, mac: string, now: int, window: int)
    requires YieldsBytes(hash) && '\"' !in key
    requires '\"' !in id && '\"' !in timestamp && '\"' !in nonce && '\"' !in bodyHash && '\"' !in mac
    ensures var header := Header(id, timestamp, nonce, bodyHash, mac);
            Authenticated(hash, key, secret, target, body, maxBody, header, now, window) <==>
            && header == Sign(hash, target, Received(body, maxBody), timestamp, nonce, key, secret)
            && CheckTimestamp(timestamp, now, window) == Valid && 8 <= |nonce| <= 128
  {
    var header := Header(id, timestamp, nonce, bodyHash, mac);
    FiveLookups(id, timestamp, nonce, bodyHash, mac);
    HonestFields(hash, key, secret, target, Received(body, maxBody), timestamp, nonce);
    PassesIffFieldsSigned(hash, key, secret, target, body, maxBody, header, now, window);
  }

  lemma FiveLookups(id: string, timestamp: string, nonce: string, bodyHash: string, mac: string)
    requires '\"' !in id && '\"' !in timestamp && '\"' !in nonce && '\"' !in bodyHash && '\"' !in mac
    ensures var fields := Fields(Header(id, timestamp, nonce, bodyHash, mac));
            && Lookup(fields, "id") == id && Lookup(fields, "ts") == timestamp && Lookup(fields, "nonce") == nonce
            && Lookup(fields, "bodyhash") == bodyHash && Lookup(fields, "mac") == mac
  {
    HeaderRoundTrip(id, timestamp, nonce, bodyHash, mac);
  }

  /** A header of another scheme never passes. */
  lemma SchemeIsRequired(
    hash: Hash, key: string, secret: string, target: Target, body: string, maxBody: nat,
    header: string, now: int, window: int)
    requires YieldsBytes(hash) && (|header| < 4 || header[..4] != "MAC ")
    ensures !Authenticated(hash, key, secret, target, body, maxBody, header, now, window)
  {
  }

  ghost predicate Injective(hash: Hash, secret: string) {
    forall m, n :: hash(m, secret) == hash(n, secret) ==> m == n
  }

  predicate OneLine(target: Target) {
    '\n' !in target.verb && '\n' !in target.resource && '\n' !in target.host && '\n' !in target.port
  }

  lemma CanonicalFixesTarget(timestamp: string, nonce: string, target: Target, other: Target, bodyHash: string)
    requires OneLine(target) && OneLine(other)
    requires Canonical(timestamp, nonce, target, bodyHash) == Canonical(timestamp, nonce, other, bodyHash)
    ensures target == other
  {
    var front, back := timestamp + "\n" + nonce + "\n", bodyHash + "\n";
    CanonicalShape(timestamp, nonce, target, bodyHash);
    CanonicalShape(timestamp, nonce, other, bodyHash);
    assert Lines(target, back) == Canonical(timestamp, nonce, target, bodyHash)[|front|..];
    assert Lines(other, back) == Canonical(timestamp, nonce, other, bodyHash)[|front|..];
    SplitAtFirst('\n', target.verb, target.resource + ['\n'] + (target.host + ['\n'] + (target.port + ['\n'] + back)),
                 other.verb, other.resource + ['\n'] + (other.host + ['\n'] + (other.port + ['\n'] + back)));
    SplitAtFirst('\n', target.resource, target.host + ['\n'] + (target.port + ['\n'] + back),
                 other.resource, other.host + ['\n'] + (other.port + ['\n'] + back));
    SplitAtFirst('\n', target.host, target.port + ['\n'] + back, other.host, other.port + ['\n'] + back);
    SplitAtFirst('\n', target.port, back, other.port, back);
  }

  function Lines(target: Target, back: string): string {
    target.verb + ['\n'] + (target.resource + ['\n'] + (target.host + ['\n'] + (target.port + ['\n'] + back)))
  }

  lemma CanonicalShape(timestamp: string, nonce: string, target: Target, bodyHash: string)
    ensures Canonical(timestamp, nonce, target, bodyHash) ==
            timestamp + "\n" + nonce + "\n" + Lines(target, bodyHash + "\n")
  {
  }

  /** With a hash that is injective in its message, a header signed for one request passes for no
      other: not for another verb, resource, host or port, and not for another body. */
  lemma SignatureBindsRequest(
    hash: Hash, key: string, secret: string, target: Target, body: string, other: Target, otherBody: string, maxBody: nat,
    timestamp: string, nonce: string, now: int, window: int)
    requires YieldsBytes(hash) && Injective(hash, secret) && OneLine(target) && OneLine(other)
    requires '\"' !in key && '\"' !in timestamp && '\"' !in nonce
    requires Authenticated(hash, key, secret, other, otherBody, maxBody,
                           Sign(hash, target, body, timestamp, nonce, key, secret), now, window)
    ensures other == target && Received(otherBody, maxBody) == body
  {
    HonestFields(hash, key, secret, target, body, timestamp, nonce);
    var read := Received(otherBody, maxBody);
    PaddedInjective(hash(body, secret), hash(read, secret));
    var bodyHash := HmacBase64(hash, body, secret);
    PaddedInjective(hash(Canonical(timestamp, nonce, target, bodyHash), secret),
                    hash(Canonical(timestamp, nonce, other, bodyHash), secret));
    CanonicalFixesTarget(timestamp, nonce, target, other, bodyHash);
  }

  /** The window test in terms of the two instants, when the clock is within range. */
  lemma TimestampWindow(raw: string, now: int, window: int)
    requires ParseInt64(raw).Some? && 0 <= window < MAX_INT64
    ensures var sent := ParseInt64(raw).value * 1_000_000;
            && (CheckTimestamp(raw, now, window) == Valid <==> sent - window <= now <= sent + window)
            && (CheckTimestamp(raw, now, window) == Expired <==> now > sent + window)
            && (CheckTimestamp(raw, now, window) == InFuture <==> now < sent - window)
  {
  }

  lemma UnreadableTimestampIsInvalid(raw: string, now: int, window: int)
    ensures CheckTimestamp(raw, now, window) == Invalid <==> ParseInt64(raw).None?
  {
  }

  // ---------------------------------------------------------------- replay window

  /** One request that passed all other checks. It carries the timestamp `sent`, which was
      validated at `validated`; under the lock the age of the nonce was read at `checked` and,
      if accepted, the nonce was stored at `stored`. */
  datatype Attempt = Attempt(key: string, sent: int, validated: int, checked: int, stored: int)

  type Nonces = map<string, int>

  predicate Accepts(nonces: Nonces, a: Attempt, replayWindow: int) {
    a.key !in nonces || a.checked - nonces[a.key] > replayWindow
  }

  function AfterAttempt(nonces: Nonces, a: Attempt, replayWindow: int): Nonces {
    if Accepts(nonces, a, replayWindow) then nonces[a.key := a.stored] else nonces
  }

  class ReplayGuard {
    var nonces: Nonces
    const replayWindow: int

    constructor (replayWindow: int)
      ensures nonces == map[] && this.replayWindow == replayWindow
    {
      this.nonces, this.replayWindow := map[], replayWindow;
    }

    method Admit(id: string, nonce: string, sent: int, validated: int, checked: int, stored: int)
      returns (accepted: bool)
      modifies this`nonces
      ensures var a := Attempt(id + ":" + nonce, sent, validated, checked, stored);
              && accepted == Accepts(old(nonces), a, replayWindow)
              && nonces == AfterAttempt(old(nonces), a, replayWindow)
    {
      var replayKey := id + ":" + nonce;
      var seen := if replayKey in nonces then Some(nonces[replayKey]) else None;
      if seen.None? || checked - seen.value > replayWindow {
        nonces := nonces[replayKey := stored];
        seen := None;
      }
      accepted := seen.None?;
    }
  }

  /** Requests in the order in which they take the lock, on one clock. */
  ghost predicate OneClock(attempts: seq<Attempt>) {
    && (forall i | 0 <= i < |attempts| :: attempts[i].validated <= attempts[i].checked <= attempts[i].stored)
    && forall i, j :: 0 <= i < j < |attempts| ==> attempts[i].stored <= attempts[j].checked
  }

  /** The accepted attempts with one replay key and timestamp. */
  function Accepted(nonces: Nonces, attempts: seq<Attempt>, key: string, sent: int, replayWindow: int): seq<Attempt>
    decreases |attempts|
  {
    if attempts == [] then []
    else
      var a := attempts[0];
      (if a.key == key && a.sent == sent && Accepts(nonces, a, replayWindow) then [a] else [])
      + Accepted(AfterAttempt(nonces, a, replayWindow), attempts[1..], key, sent, replayWindow)
  }

  lemma {:induction false} AcceptedAreAttempts(
    nonces: Nonces, attempts: seq<Attempt>, key: string, sent: int, replayWindow: int, k: nat)
    requires k < |Accepted(nonces, attempts, key, sent, replayWindow)|
    ensures var a := Accepted(nonces, attempts, key, sent, replayWindow)[k];
            a in attempts && a.key == key && a.sent == sent
    decreases |attempts|
  {
    var a := attempts[0];
    var first := a.key == key && a.sent == sent && Accepts(nonces, a, replayWindow);
    if !(first && k == 0) {
      AcceptedAreAttempts(AfterAttempt(nonces, a, replayWindow), attempts[1..], key, sent, replayWindow,
                          if first then k - 1 else k);
    }
  }

  ghost predicate Spaced(acc: seq<Attempt>, gap: int) {
    forall i | 0 <= i < |acc| - 1 :: acc[i + 1].checked - acc[i].stored > gap
  }

  /** Everything from now on is checked at `from` or later. */
  ghost predicate StartsAt(attempts: seq<Attempt>, from: int) {
    forall i | 0 <= i < |attempts| :: from <= attempts[i].checked
  }

  /** Each further acceptance of a nonce with one timestamp comes more than the replay window
      after the one before, and after any moment `from` at which the nonce was already stored,
      whatever other requests, also with other timestamps for the same nonce, come between. */
  lemma {:induction false} AcceptancesAreSpaced(
    nonces: Nonces, attempts: seq<Attempt>, key: string, sent: int, replayWindow: int, from: int)
    requires OneClock(attempts)
    ensures var acc := Accepted(nonces, attempts, key, sent, replayWindow);
            && (acc != [] && key in nonces && from <= nonces[key] && StartsAt(attempts, from) ==>
                  acc[0].checked - from > replayWindow)
            && Spaced(acc, replayWindow)
    decreases |attempts|
  {
    if attempts != [] {
      var a, rest := attempts[0], attempts[1..];
      var next := AfterAttempt(nonces, a, replayWindow);
      assert OneClock(rest) && (StartsAt(attempts, from) ==> StartsAt(rest, from)) && StartsAt(rest, a.stored);
      AcceptancesAreSpaced(next, rest, key, sent, replayWindow, from);
      if a.key == key && a.sent == sent && Accepts(nonces, a, replayWindow) {
        AcceptancesAreSpaced(next, rest, key, sent, replayWindow, a.stored);
        var acc := [a] + Accepted(next, rest, key, sent, replayWindow);
        assert forall i | 1 <= i < |acc| :: acc[i] == Accepted(next, rest, key, sent, replayWindow)[i - 1];
      }
    }
  }

  lemma {:induction false} SpacedTotal(acc: seq<Attempt>, gap: int)
    requires Spaced(acc, gap) && |acc| >= 1
    requires forall i | 0 <= i < |acc| :: acc[i].checked <= acc[i].stored
    ensures |acc| >= 2 ==> (|acc| - 1) * (gap + 1) <= acc[|acc| - 1].checked - acc[0].stored
  {
    if |acc| > 1 {
      var n := |acc| - 1;
      var front := acc[..n];
      assert forall i | 0 <= i < |front| :: front[i] == acc[i];
      SpacedTotal(front, gap);
      assert acc[n - 1 + 1].checked - acc[n - 1].stored > gap;
      assert n * (gap + 1) == (n - 1) * (gap + 1) + (gap + 1);
    }
  }

  /** The request passed the check of its timestamp, and at most `delay` passed from then to
      the check of its nonce. */
  predicate Timely(a: Attempt, signatureWindow: int, delay: int) {
    a.sent - signatureWindow <= a.validated <= a.sent + signatureWindow && a.checked - a.validated <= delay
  }

  ghost predicate AllTimely(attempts: seq<Attempt>, key: string, sent: int, signatureWindow: int, delay: int) {
    forall i | 0 <= i < |attempts| ::
      attempts[i].key == key && attempts[i].sent == sent ==> Timely(attempts[i], signatureWindow, delay)
  }

  /** Replay bound, for the acceptances of one nonce with one timestamp in any run: among n of
      them, n - 1 replay windows are less than two signature windows plus the longest time such
      a request spends between the check of its timestamp and that of its nonce. */
  lemma ReplayBound(
    nonces: Nonces, attempts: seq<Attempt>, key: string, sent: int, replayWindow: int, signatureWindow: int, delay: int)
    requires OneClock(attempts) && AllTimely(attempts, key, sent, signatureWindow, delay)
    ensures var n := |Accepted(nonces, attempts, key, sent, replayWindow)|;
            n >= 2 ==>
              && (n - 1) * (replayWindow + 1) <= 2 * signatureWindow + delay
              && (n - 1) * replayWindow < 2 * signatureWindow + delay
  {
    AcceptancesAreSpaced(nonces, attempts, key, sent, replayWindow, 0);
    var acc := Accepted(nonces, attempts, key, sent, replayWindow);
    forall k | 0 <= k < |acc|
      ensures acc[k].checked <= acc[k].stored && acc[k].validated <= acc[k].checked && Timely(acc[k], signatureWindow, delay) && acc[k].sent == sent
    {
      AcceptedAreAttempts(nonces, attempts, key, sent, replayWindow, k);
    }
    if |acc| >= 2 {
      var n := |acc|;
      SpacedTotal(acc, replayWindow);
      assert (n - 1) * (replayWindow + 1) == (n - 1) * replayWindow + (n - 1);
    }
  }

  /** When validation and check share one clock reading, a nonce is accepted with one timestamp
      at most twice with equal windows, and at most once with a replay window of twice the
      signature window. */
  lemma PromptChecksBoundReplays(
    nonces: Nonces, attempts: seq<Attempt>, key: string, sent: int, replayWindow: int, signatureWindow: int)
    requires OneClock(attempts) && AllTimely(attempts, key, sent, signatureWindow, 0) && signatureWindow >= 0
    ensures var n := |Accepted(nonces, attempts, key, sent, replayWindow)|;
            && (replayWindow >= signatureWindow ==> n <= 2)
            && (replayWindow >= 2 * signatureWindow ==> n <= 1)
  {
    ReplayBound(nonces, attempts, key, sent, replayWindow, signatureWindow, 0);
    var n := |Accepted(nonces, attempts, key, sent, replayWindow)|;
    if n >= 2 { FewMultiples(n - 1, replayWindow, signatureWindow); }
  }

  lemma FewMultiples(n: int, replayWindow: int, signatureWindow: int)
    requires n >= 1 && signatureWindow >= 0 && n * replayWindow < 2 * signatureWindow
    ensures replayWindow >= signatureWindow ==> n <= 1
    ensures replayWindow < 2 * signatureWindow
  {
  }

  // ---------------------------------------------------------------- the bound is reached

  function Least(a: int, b: int): int {
    if a <= b then a else b
  }

  /** `n` requests checked a replay window and a nanosecond apart, from `at` on, each validated
      as late as its timestamp allows. */
  function Replays(key: string, sent: int, replayWindow: nat, signatureWindow: int, at: int, n: nat): seq<Attempt>
    decreases n
  {
    if n == 0 then []
    else
      [Attempt(key, sent, Least(at, sent + signatureWindow), at, at)]
      + Replays(key, sent, replayWindow, signatureWindow, at + replayWindow + 1, n - 1)
  }

  lemma {:induction false} ReplaysAccepted(
    nonces: Nonces, key: string, sent: int, replayWindow: nat, signatureWindow: int, at: int, n: nat)
    requires key in nonces ==> at - nonces[key] > replayWindow
    ensures var run := Replays(key, sent, replayWindow, signatureWindow, at, n);
            Accepted(nonces, run, key, sent, replayWindow) == run && |run| == n
    decreases n
  {
    if n > 0 {
      ReplaysAccepted(nonces[key := at], key, sent, replayWindow, signatureWindow, at + replayWindow + 1, n - 1);
    }
  }

  /** All of them are later than `at`, and validated and checked as they should be. */
  lemma {:induction false} ReplaysStartAt(key: string, sent: int, replayWindow: nat, signatureWindow: int, at: int, n: nat)
    ensures var run := Replays(key, sent, replayWindow, signatureWindow, at, n);
            StartsAt(run, at) && OneClock(run)
    decreases n
  {
    if n > 0 {
      var rest := Replays(key, sent, replayWindow, signatureWindow, at + replayWindow + 1, n - 1);
      ReplaysStartAt(key, sent, replayWindow, signatureWindow, at + replayWindow + 1, n - 1);
      assert forall i | 0 <= i < |rest| :: at + replayWindow + 1 <= rest[i].checked;
    }
  }

  lemma {:induction false} ReplaysAreTimely(
    key: string, sent: int, replayWindow: nat, signatureWindow: nat, delay: nat, at: int, n: nat)
    requires sent - signatureWindow <= at
    requires n >= 1 ==> at + (n - 1) * (replayWindow + 1) <= sent + signatureWindow + delay
    ensures AllTimely(Replays(key, sent, replayWindow, signatureWindow, at, n), key, sent, signatureWindow, delay)
    decreases n
  {
    if n > 1 {
      assert (n - 1) * (replayWindow + 1) == (n - 2) * (replayWindow + 1) + (replayWindow + 1);
      assert 0 <= (n - 2) * (replayWindow + 1);
    }
    if n > 0 {
      ReplaysAreTimely(key, sent, replayWindow, signatureWindow, delay, at + replayWindow + 1, n - 1);
    }
  }

  /** A run of requests for one nonce and timestamp with `n` acceptances. */
  ghost predicate ReplayedRun(
    attempts: seq<Attempt>, key: string, sent: int, replayWindow: int, signatureWindow: int, delay: int, n: nat)
  {
    && OneClock(attempts) && AllTimely(attempts, key, sent, signatureWindow, delay)
    && |Accepted(map[], attempts, key, sent, replayWindow)| == n
  }

  /** The bound is exact: n acceptances, two or more, are possible exactly when n - 1 times the
      least gap between them fits into two signature windows and the delay. */
  lemma ReplaysPossibleIff(key: string, sent: int, replayWindow: nat, signatureWindow: nat, delay: nat, n: nat)
    requires n >= 2
    ensures (exists attempts :: ReplayedRun(attempts, key, sent, replayWindow, signatureWindow, delay, n)) <==>
            (n - 1) * (replayWindow + 1) <= 2 * signatureWindow + delay
  {
    if attempts :| ReplayedRun(attempts, key, sent, replayWindow, signatureWindow, delay, n) {
      ReplayBound(map[], attempts, key, sent, replayWindow, signatureWindow, delay);
    }
    if (n - 1) * (replayWindow + 1) <= 2 * signatureWindow + delay {
      var at := sent - signatureWindow;
      ReplaysStartAt(key, sent, replayWindow, signatureWindow, at, n);
      ReplaysAreTimely(key, sent, replayWindow, signatureWindow, delay, at, n);
      ReplaysAccepted(map[], key, sent, replayWindow, signatureWindow, at, n);
      assert ReplayedRun(Replays(key, sent, replayWindow, signatureWindow, at, n), key, sent, replayWindow, signatureWindow, delay, n);
    }
  }

  /** Requests validated together and delayed long enough before the check of their nonce get
      through any number of times, for every window. */
  lemma DelayedChecksAdmitMore(key: string, sent: int, window: nat, delay: nat, n: nat)
    requires n >= 2
    requires delay == (n - 1) * (window + 1)
    ensures exists attempts :: ReplayedRun(attempts, key, sent, window, window, delay, n)
  {
    ReplaysPossibleIff(key, sent, window, window, delay, n);
  }
}
