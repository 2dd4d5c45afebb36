/** Masking of retained alert evidence: values under sensitive keys are replaced, object lists
    are cut to twenty entries. Evidence is JSON as Go decodes it. Keys and paths are sequences
    of code points here, because the matching folds case. */
module Masking {

  /** `Rows` is Go's `[]map[string]any`, `List` is `[]any`; every other Go value, a list of
      strings among them, is a `Leaf`. */
  datatype Value =
    | Object(fields: map<string, Value>)
    | List(items: seq<Value>)
    | Rows(rows: seq<Value>)
    | Leaf(scalar: Scalar)

  datatype Scalar = Null | Bool(b: bool) | Number(n: real) | Text(text: string) | Texts(texts: seq<string>)

  const MASKED := Leaf(Text("MASKED"))
  const SAMPLE_LIMIT: nat := 20

  // ---------------------------------------------------------------- which keys are sensitive

  /** Case folding of the letters that occur in the pattern; two letters outside ASCII fold
      to ASCII ones. */
  function Fold(c: char): char {
    if 'A' <= c <= 'Z' then (c as int + 32) as char
    else if c as int == 0x17F then 's'
    else if c as int == 0x212A then 'k'
    else c
  }

  function FoldText(s: string): string {
    seq(|s|, i requires 0 <= i < |s| => Fold(s[i]))
  }

  predicate StandsAt(s: string, word: string, i: nat) {
    i + |word| <= |s| && s[i..i + |word|] == word
  }

  predicate Contains(s: string, word: string) {
    exists i | 0 <= i <= |s| :: StandsAt(s, word, i)
  }

  const SENSITIVE_WORDS := [
    "authorization", "cookie", "password", "passwd", "secret", "token",
    "apikey", "api-key", "api_key", "privatekey", "private-key", "private_key", "session"]

  /** The pattern `sensitiveKey`, matched anywhere in a path. */
  predicate SensitivePath(path: string) {
    exists i | 0 <= i < |SENSITIVE_WORDS| :: Contains(FoldText(path), SENSITIVE_WORDS[i])
  }

  /** An application's own patterns, with the comparison `strings.EqualFold`. */
  datatype Rules = Rules(patterns: seq<string>, equalFold: (string, string) -> bool)

  function Child(path: string, key: string): string {
    if path == "" then key else path + "." + key
  }

  predicate Hidden(path: string, key: string, rules: Rules) {
    || SensitivePath(Child(path, key))
    || exists i | 0 <= i < |rules.patterns| ::
         rules.equalFold(rules.patterns[i], Child(path, key)) || rules.equalFold(rules.patterns[i], key)
  }

  // ---------------------------------------------------------------- masking

  function Kept(length: nat): nat {
    if length > SAMPLE_LIMIT then SAMPLE_LIMIT else length
  }

  /** `maskValue` */
  function Mask(value: Value, path: string, rules: Rules): Value
    decreases value
  {
    match value
    case Object(fields) =>
      Object(map key | key in fields ::
               if Hidden(path, key, rules) then MASKED else Mask(fields[key], Child(path, key), rules))
    case List(items) =>
      List(seq(Kept(|items|), i requires 0 <= i < Kept(|items|) => Mask(items[i], path, rules)))
    case Rows(rows) =>
      Rows(seq(Kept(|rows|), i requires 0 <= i < Kept(|rows|) => Mask(rows[i], path, rules)))
    case Leaf(_) => value
  }

  /** The two values differ at most where masking hides or drops something: under hidden keys
      and past the twentieth entry of a list. */
  ghost predicate Indistinguishable(v: Value, w: Value, path: string, rules: Rules)
    decreases v
  {
    match v
    case Object(fields) =>
      && w.Object? && fields.Keys == w.fields.Keys
      && forall key | key in fields ::
           Hidden(path, key, rules) || Indistinguishable(fields[key], w.fields[key], Child(path, key), rules)
    case List(items) =>
      && w.List? && Kept(|items|) == Kept(|w.items|)
      && forall i | 0 <= i < Kept(|items|) :: Indistinguishable(items[i], w.items[i], path, rules)
    case Rows(rows) =>
      && w.Rows? && Kept(|rows|) == Kept(|w.rows|)
      && forall i | 0 <= i < Kept(|rows|) :: Indistinguishable(rows[i], w.rows[i], path, rules)
    case Leaf(_) => v == w
  }

  /** Non-interference, both ways: masked outputs are equal exactly when the inputs differ only
      in what masking is meant to remove, so nothing else is lost and nothing of it shows. */
  lemma {:induction false} MaskingIsExact(v: Value, w: Value, path: string, rules: Rules)
    ensures Mask(v, path, rules) == Mask(w, path, rules) <==> Indistinguishable(v, w, path, rules)
    decreases v
  {
    var mv, mw := Mask(v, path, rules), Mask(w, path, rules);
    match v
    case Object(fields) =>
      if w.Object? {
        forall key | key in fields && key in w.fields && !Hidden(path, key, rules)
          ensures mv.fields[key] == mw.fields[key] <==>
                  Indistinguishable(fields[key], w.fields[key], Child(path, key), rules)
        {
          MaskingIsExact(fields[key], w.fields[key], Child(path, key), rules);
        }
        assert mv.fields.Keys == fields.Keys && mw.fields.Keys == w.fields.Keys;
      }
    case List(items) =>
      if w.List? {
        forall i | 0 <= i < Kept(|items|) && i < Kept(|w.items|)
          ensures mv.items[i] == mw.items[i] <==> Indistinguishable(items[i], w.items[i], path, rules)
        {
          MaskingIsExact(items[i], w.items[i], path, rules);
        }
        assert |mv.items| == Kept(|items|) && |mw.items| == Kept(|w.items|);
      }
    case Rows(rows) =>
      if w.Rows? {
        forall i | 0 <= i < Kept(|rows|) && i < Kept(|w.rows|)
          ensures mv.rows[i] == mw.rows[i] <==> Indistinguishable(rows[i], w.rows[i], path, rules)
        {
          MaskingIsExact(rows[i], w.rows[i], path, rules);
        }
        assert |mv.rows| == Kept(|rows|) && |mw.rows| == Kept(|w.rows|);
      }
    case Leaf(_) =>
  }

  /** Masking already masked evidence changes nothing. */
  lemma {:induction false} MaskingIsIdempotent(v: Value, path: string, rules: Rules)
    ensures Mask(Mask(v, path, rules), path, rules) == Mask(v, path, rules)
    decreases v
  {
    match v
    case Object(fields) =>
      forall key | key in fields && !Hidden(path, key, rules)
        ensures Mask(Mask(fields[key], Child(path, key), rules), Child(path, key), rules)
                == Mask(fields[key], Child(path, key), rules)
      {
        MaskingIsIdempotent(fields[key], Child(path, key), rules);
      }
    case List(items) =>
      forall i | 0 <= i < Kept(|items|)
        ensures Mask(Mask(items[i], path, rules), path, rules) == Mask(items[i], path, rules)
      {
        MaskingIsIdempotent(items[i], path, rules);
      }
    case Rows(rows) =>
      forall i | 0 <= i < Kept(|rows|)
        ensures Mask(Mask(rows[i], path, rules), path, rules) == Mask(rows[i], path, rules)
      {
        MaskingIsIdempotent(rows[i], path, rules);
      }
    case Leaf(_) =>
  }

  /** What a masked value looks like: hidden keys hold the marker, lists have at most twenty
      entries, rows are objects; a list of strings is a leaf and keeps all of its entries. */
  ghost predicate WellMasked(v: Value, path: string, rules: Rules)
    decreases v
  {
    match v
    case Object(fields) =>
      forall key | key in fields ::
        if Hidden(path, key, rules) then fields[key] == MASKED else WellMasked(fields[key], Child(path, key), rules)
    case List(items) =>
      |items| <= SAMPLE_LIMIT && forall i | 0 <= i < |items| :: WellMasked(items[i], path, rules)
    case Rows(rows) =>
      |rows| <= SAMPLE_LIMIT && forall i | 0 <= i < |rows| :: rows[i].Object? && WellMasked(rows[i], path, rules)
    case Leaf(_) => true
  }

  /** Every value of the Go type: the entries of `Rows` are objects. */
  ghost predicate WellTyped(v: Value)
    decreases v
  {
    match v
    case Object(fields) => forall key | key in fields :: WellTyped(fields[key])
    case List(items) => forall i | 0 <= i < |items| :: WellTyped(items[i])
    case Rows(rows) => forall i | 0 <= i < |rows| :: rows[i].Object? && WellTyped(rows[i])
    case Leaf(_) => true
  }

  /** Masking yields well-masked values, and the well-masked values are exactly those it
      leaves alone; objects keep their keys. */
  lemma {:induction false} MaskingIsComplete(v: Value, path: string, rules: Rules)
    requires WellTyped(v)
    ensures WellMasked(Mask(v, path, rules), path, rules)
    ensures WellMasked(v, path, rules) <==> Mask(v, path, rules) == v
    ensures v.Object? ==> Mask(v, path, rules).Object? && Mask(v, path, rules).fields.Keys == v.fields.Keys
    decreases v
  {
    var m := Mask(v, path, rules);
    match v
    case Object(fields) =>
      forall key | key in fields && !Hidden(path, key, rules)
        ensures WellMasked(m.fields[key], Child(path, key), rules)
        ensures WellMasked(fields[key], Child(path, key), rules) <==> m.fields[key] == fields[key]
      {
        MaskingIsComplete(fields[key], Child(path, key), rules);
      }
      assert m.fields.Keys == fields.Keys;
    case List(items) =>
      forall i | 0 <= i < Kept(|items|)
        ensures WellMasked(m.items[i], path, rules) && (WellMasked(items[i], path, rules) <==> m.items[i] == items[i])
      {
        MaskingIsComplete(items[i], path, rules);
      }
    case Rows(rows) =>
      forall i | 0 <= i < Kept(|rows|)
        ensures m.rows[i].Object? && WellMasked(m.rows[i], path, rules)
        ensures WellMasked(rows[i], path, rules) <==> m.rows[i] == rows[i]
      {
        MaskingIsComplete(rows[i], path, rules);
      }
    case Leaf(_) =>
  }

  // ---------------------------------------------------------------- what is masked

  /** The character is the given small letter, hyphen or underscore, up to case. */
  predicate FoldsTo(c: char, l: char) {
    || c == l
    || ('a' <= l <= 'z' && c as int + 32 == l as int)
    || (l == 's' && c as int == 0x17F)
    || (l == 'k' && c as int == 0x212A)
  }

  ghost predicate HasWord(path: string, word: string) {
    exists i :: 0 <= i && i + |word| <= |path| && WordAt(path, word, i)
  }

  predicate WordAt(path: string, word: string, i: nat)
    requires i + |word| <= |path|
  {
    forall k | 0 <= k < |word| :: FoldsTo(path[i + k], word[k])
  }

  /** The path contains one of the words that mark a secret, in any case. */
  ghost predicate NamesSecret(path: string) {
    || HasWord(path, "authorization") || HasWord(path, "cookie") || HasWord(path, "password") || HasWord(path, "passwd")
    || HasWord(path, "secret") || HasWord(path, "token") || HasWord(path, "session")
    || HasWord(path, "apikey") || HasWord(path, "api-key") || HasWord(path, "api_key")
    || HasWord(path, "privatekey") || HasWord(path, "private-key") || HasWord(path, "private_key")
  }

  ghost predicate SmallLetters(word: string) {
    forall k | 0 <= k < |word| :: 'a' <= word[k] <= 'z' || word[k] == '-' || word[k] == '_'
  }

  lemma ContainsIffHasWord(path: string, word: string)
    requires SmallLetters(word)
    ensures Contains(FoldText(path), word) <==> HasWord(path, word)
  {
    forall i: nat | i + |word| <= |path| ensures StandsAt(FoldText(path), word, i) <==> WordAt(path, word, i) {
      var part := FoldText(path)[i..i + |word|];
      assert forall k | 0 <= k < |word| :: part[k] == Fold(path[i + k]);
      assert forall k | 0 <= k < |word| :: part[k] == word[k] <==> FoldsTo(path[i + k], word[k]);
      if WordAt(path, word, i) { assert part == word; }
      if part == word { assert forall k | 0 <= k < |word| :: part[k] == word[k]; }
    }
    if Contains(FoldText(path), word) {
      var i :| 0 <= i <= |path| && StandsAt(FoldText(path), word, i);
      assert WordAt(path, word, i);
    }
    if HasWord(path, word) {
      var i :| 0 <= i && i + |word| <= |path| && WordAt(path, word, i);
      assert StandsAt(FoldText(path), word, i);
    }
  }

  lemma WordsAreSmall(k: nat)
    requires k < |SENSITIVE_WORDS|
    ensures SmallLetters(SENSITIVE_WORDS[k])
  {
  }

  lemma SensitiveIffNamesSecret(path: string)
    ensures SensitivePath(path) <==> NamesSecret(path)
  {
    var words := SENSITIVE_WORDS;
    assert words == [
      "authorization", "cookie", "password", "passwd", "secret", "token",
      "apikey", "api-key", "api_key", "privatekey", "private-key", "private_key", "session"];
    forall k | 0 <= k < |words| ensures Contains(FoldText(path), words[k]) <==> HasWord(path, words[k]) {
      WordsAreSmall(k);
      ContainsIffHasWord(path, words[k]);
    }
    assert SensitivePath(path) <==> exists k | 0 <= k < |words| :: HasWord(path, words[k]);
    assert words[0] == "authorization" && words[1] == "cookie" && words[2] == "password" && words[3] == "passwd";
    assert words[4] == "secret" && words[5] == "token" && words[6] == "apikey" && words[7] == "api-key";
    assert words[8] == "api_key" && words[9] == "privatekey" && words[10] == "private-key" && words[11] == "private_key";
    assert words[12] == "session";
  }

  /** A field is replaced exactly when its path, the keys down to it joined by dots, names a
      secret, or a rule of the application is its path or its key; otherwise it is masked in
      its turn under that path. */
  lemma FieldIsMaskedIff(fields: map<string, Value>, path: string, key: string, rules: Rules)
    requires key in fields
    ensures var masked, child := Mask(Object(fields), path, rules), if path == "" then key else path + "." + key;
            && masked.Object? && masked.fields.Keys == fields.Keys
            && masked.fields[key] ==
               if NamesSecret(child) || exists i | 0 <= i < |rules.patterns| ::
                    rules.equalFold(rules.patterns[i], child) || rules.equalFold(rules.patterns[i], key)
               then Leaf(Text("MASKED")) else Mask(fields[key], child, rules)
  {
    SensitiveIffNamesSecret(Child(path, key));
  }

  /** Of a list the first twenty entries stay, each masked under the path of the list. */
  lemma ListIsCut(items: seq<Value>, path: string, rules: Rules)
    ensures var list, rows := Mask(List(items), path, rules), Mask(Rows(items), path, rules);
            && list.List? && rows.Rows? && rows.rows == list.items
            && |list.items| == (if |items| <= 20 then |items| else 20)
            && forall i | 0 <= i < |list.items| :: list.items[i] == Mask(items[i], path, rules)
  {
  }

  /** For one: a password is masked without any rule. */
  lemma PasswordIsMasked(value: Value, equalFold: (string, string) -> bool)
    ensures Mask(Object(map["Password" := value]), "", Rules([], equalFold)) == Object(map["Password" := Leaf(Text("MASKED"))])
  {
    assert WordAt("Password", "password", 0);
    FieldIsMaskedIff(map["Password" := value], "", "Password", Rules([], equalFold));
  }
}
