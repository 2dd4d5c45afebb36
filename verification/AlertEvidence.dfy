/** What of an event's evidence masking leaves whole. */
module AlertEvidence {
  import opened Outcomes
  import opened Masking
  import opened Alerts

  predicate HiddenByRule(key: string, rules: Rules) {
    exists i | 0 <= i < |rules.patterns| :: rules.equalFold(rules.patterns[i], key)
  }

  /** A field of the evidence after masking. */
  function MaskedField(event: Event, rules: Rules, key: string): Option<Value> {
    match Mask(RawEvidence(event), "", rules)
    case Object(fields) => if key in fields then Some(fields[key]) else None
    case _ => None
  }

  lemma MaskedFieldIs(event: Event, rules: Rules, key: string)
    requires key in RawEvidence(event).fields && !SensitivePath(key)
    ensures MaskedField(event, rules, key) ==
            Some(if HiddenByRule(key, rules) then MASKED else Mask(RawEvidence(event).fields[key], key, rules))
  {
    var raw := RawEvidence(event).fields;
    assert Child("", key) == key && (Hidden("", key, rules) <==> HiddenByRule(key, rules));
    assert Mask(Object(raw), "", rules).fields[key] == if Hidden("", key, rules) then MASKED else Mask(raw[key], key, rules);
  }

  lemma RawFields(event: Event)
    ensures var raw := RawEvidence(event).fields;
            && "findingIds" in raw && raw["findingIds"] == Leaf(Texts(event.findingIds))
            && "documentIds" in raw && raw["documentIds"] == Leaf(Texts(event.documentIds))
            && "samples" in raw && raw["samples"] == Rows(event.samples)
            && "periodStart" in raw && raw["periodStart"] == Leaf(Text(event.periodStart))
            && "periodEnd" in raw && raw["periodEnd"] == Leaf(Text(event.periodEnd))
            && "resultSummary" in raw && raw["resultSummary"] == event.resultSummary
            && "error" in raw && raw["error"] == Leaf(Text(event.error))
  {
    assert |"periodStart"| == 11 && |"periodEnd"| == 9 && "periodStart"[0] == 'p' && "periodEnd"[0] == 'p';
    assert "findingIds"[0] == 'f' && "documentIds"[0] == 'd' && "samples"[0] == 's' && "resultSummary"[0] == 'r' && "error"[0] == 'e';
  }

  /** The first two letters of the words that make a key sensitive. */
  predicate StartsWord(a: char, b: char) {
    (a == 'a' && b in "up") || (a == 'c' && b == 'o') || (a == 'p' && b in "ar") || (a == 's' && b == 'e') || (a == 't' && b == 'o')
  }

  lemma WordStarts(k: nat)
    requires k < |SENSITIVE_WORDS|
    ensures |SENSITIVE_WORDS[k]| >= 2 && StartsWord(SENSITIVE_WORDS[k][0], SENSITIVE_WORDS[k][1])
  {
  }

  lemma WithoutWordStart(path: string)
    requires var s := FoldText(path); forall i | 0 <= i < |s| - 1 :: !StartsWord(s[i], s[i + 1])
    ensures !SensitivePath(path)
  {
    var s := FoldText(path);
    forall k, i | 0 <= k < |SENSITIVE_WORDS| && 0 <= i <= |s| ensures !StandsAt(s, SENSITIVE_WORDS[k], i) {
      WordStarts(k);
    }
  }

  lemma ListFieldsAreNotSensitive()
    ensures !SensitivePath("findingIds") && !SensitivePath("documentIds") && !SensitivePath("samples")
  {
    assert FoldText("findingIds") == "findingids";
    WithoutWordStart("findingIds");
    assert FoldText("documentIds") == "documentids";
    WithoutWordStart("documentIds");
    assert FoldText("samples") == "samples";
    WithoutWordStart("samples");
  }

  /** The lists of findings and documents stay whole, however long, exactly unless a rule of the
      application hides them; the samples are masked and cut. */
  lemma IdentifierListsStayWhole(event: Event, rules: Rules)
    ensures MaskedField(event, rules, "findingIds") ==
            Some(if HiddenByRule("findingIds", rules) then MASKED else Leaf(Texts(event.findingIds)))
    ensures MaskedField(event, rules, "documentIds") ==
            Some(if HiddenByRule("documentIds", rules) then MASKED else Leaf(Texts(event.documentIds)))
    ensures MaskedField(event, rules, "samples") ==
            Some(if HiddenByRule("samples", rules) then MASKED else Mask(Rows(event.samples), "samples", rules))
  {
    ListFieldsAreNotSensitive();
    RawFields(event);
    MaskedFieldIs(event, rules, "findingIds");
    MaskedFieldIs(event, rules, "documentIds");
    MaskedFieldIs(event, rules, "samples");
  }

  /** So twenty-one findings are kept, where of twenty-one samples the last is dropped. */
  lemma TwentyOneEntries(event: Event, rules: Rules)
    requires |event.findingIds| == 21 == |event.samples|
    requires !HiddenByRule("findingIds", rules) && !HiddenByRule("samples", rules)
    ensures exists texts :: |texts| == 21 && MaskedField(event, rules, "findingIds") == Some(Leaf(Texts(texts)))
    ensures exists rows :: |rows| == 20 && MaskedField(event, rules, "samples") == Some(Rows(rows))
  {
    IdentifierListsStayWhole(event, rules);
    var samples := Mask(Rows(event.samples), "samples", rules);
    assert samples == Rows(samples.rows) && |samples.rows| == 20;
  }
}
