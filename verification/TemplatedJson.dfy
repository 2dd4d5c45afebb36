/** The templated-JSON checker: every `{{ ... }}` template is replaced by a placeholder that
    suits its context, the result goes to the JSON parser, and an error offset is mapped back
    to the source text and then to a line and a column. */
module TemplatedJson {
  import opened Outcomes
  import opened JsonStrings

  const VALUE_PLACEHOLDER := "\"__rhythm_template__\""
  const STRING_PLACEHOLDER := "rhythmTemplate"

  // ---------------------------------------------------------------- finding templates

  /** The pair `x``x` of braces stands at `i`. */
  predicate PairAt(source: string, i: nat, brace: char) {
    i + 1 < |source| && source[i] == brace && source[i + 1] == brace
  }

  /** Where the first such pair at or after `from` stands. */
  function FindPair(source: string, from: nat, brace: char): (r: Option<nat>)
    ensures r.Some? ==> from <= r.value && r.value + 2 <= |source|
    decreases |source| - from
  {
    if from >= |source| then None
    else if PairAt(source, from, brace) then Some(from)
    else FindPair(source, from + 1, brace)
  }

  lemma {:induction false} FindPairIsFirst(source: string, from: nat, brace: char)
    ensures var r := FindPair(source, from, brace);
            && (r.Some? ==> PairAt(source, r.value, brace))
            && forall i: nat | from <= i && PairAt(source, i, brace) :: r.Some? && r.value <= i
    decreases |source| - from
  {
    if from < |source| && !PairAt(source, from, brace) {
      FindPairIsFirst(source, from + 1, brace);
    }
  }

  /** A template occupies `source[start..end]`. */
  datatype Template = Template(start: nat, end: nat)

  /** The next match of the pattern `\{\{[\s\S]*?\}\}`: an opening pair, as little text as
      possible, a closing pair. */
  function NextTemplate(source: string, from: nat): (r: Option<Template>)
    ensures r.Some? ==> from <= r.value.start && r.value.start + 4 <= r.value.end <= |source|
  {
    match FindPair(source, from, '{')
    case None => None
    case Some(open) =>
      match FindPair(source, open + 2, '}')
      case None => None
      case Some(close) => Some(Template(open, close + 2))
  }

  ghost predicate IsMatch(source: string, from: nat, t: Template) {
    && from <= t.start && PairAt(source, t.start, '{')
    && t.start + 4 <= t.end && PairAt(source, t.end - 2, '}')
  }

  /** `NextTemplate` is the regular expression's leftmost, then shortest, match. */
  lemma NextTemplateIsLeftmostShortest(source: string, from: nat)
    ensures var r := NextTemplate(source, from);
            && (r.None? ==> forall t: Template :: !IsMatch(source, from, t))
            && (r.Some? ==>
                  && IsMatch(source, from, r.value)
                  && forall t: Template | IsMatch(source, from, t) ::
                       r.value.start < t.start || (r.value.start == t.start && r.value.end <= t.end))
  {
    FindPairIsFirst(source, from, '{');
    var open := FindPair(source, from, '{');
    if open.Some? { FindPairIsFirst(source, open.value + 2, '}'); }
    forall t: Template | IsMatch(source, from, t)
      ensures NextTemplate(source, from).Some?
      ensures var r := NextTemplate(source, from).value;
              r.start < t.start || (r.start == t.start && r.end <= t.end)
    {
      assert PairAt(source, t.start, '{');
      assert open.Some? && open.value <= t.start;
      assert PairAt(source, t.end - 2, '}');
    }
  }

  // ---------------------------------------------------------------- rewriting

  datatype RewriteSpan = RewriteSpan(
    originalStart: nat, originalEnd: nat, rewrittenStart: nat, rewrittenEnd: nat)

  function PlaceholderLength(inString: bool): nat {
    if inString then 14 else 21
  }

  function PlaceholderFor(inString: bool): (placeholder: string)
    ensures |placeholder| == PlaceholderLength(inString)
  {
    if inString then STRING_PLACEHOLDER else VALUE_PLACEHOLDER
  }

  lemma PlaceholderTexts()
    ensures PlaceholderFor(true) == "rhythmTemplate" && PlaceholderFor(false) == "\"__rhythm_template__\""
  {
  }

  predicate StartsInString(source: string, t: Template)
    requires t.start <= |source|
  {
    Scan(OUTSIDE, source[..t.start]).inString
  }

  /** The rewritten form of `source[from..]`. */
  function Rewritten(source: string, from: nat): string
    requires from <= |source|
    decreases |source| - from
  {
    match NextTemplate(source, from)
    case None => source[from..]
    case Some(t) => source[from..t.start] + PlaceholderFor(StartsInString(source, t)) + Rewritten(source, t.end)
  }

  /** The span of the first template, when `from` is written at offset `at`. */
  function FirstSpan(source: string, from: nat, at: nat, t: Template): RewriteSpan
    requires from <= t.start <= |source|
  {
    var start := at + (t.start - from);
    RewriteSpan(t.start, t.end, start, start + PlaceholderLength(StartsInString(source, t)))
  }

  /** The spans of the templates at or after `from`, when `from` is written at offset `at`. */
  function Spans(source: string, from: nat, at: nat): seq<RewriteSpan>
    requires from <= |source|
    decreases |source| - from
  {
    match NextTemplate(source, from)
    case None => []
    case Some(t) =>
      var span := FirstSpan(source, from, at, t);
      [span] + Spans(source, t.end, span.rewrittenEnd)
  }

  method RewriteJsonTemplates(source: string) returns (rewritten: string, spans: seq<RewriteSpan>)
    ensures rewritten == Rewritten(source, 0)
    ensures spans == Spans(source, 0, 0)
  {
    spans := [];
    rewritten := "";
    var last := 0;
    var next := NextTemplate(source, 0);
    ghost var allText, allSpans := Rewritten(source, 0), Spans(source, 0, 0);
    while next.Some?
      invariant last <= |source| && next == NextTemplate(source, last)
      invariant rewritten + Rewritten(source, last) == allText
      invariant spans + Spans(source, last, |rewritten|) == allSpans
      decreases |source| - last
    {
      var originalStart, originalEnd := next.value.start, next.value.end;
      ghost var before, beforeSpans := rewritten, spans;
      rewritten := rewritten + source[last..originalStart];
      var rewrittenStart := |rewritten|;
      var inside := IsInsideJsonString(source, originalStart);
      var placeholder := PlaceholderFor(inside);
      rewritten := rewritten + placeholder;
      spans := spans + [RewriteSpan(originalStart, originalEnd, rewrittenStart, |rewritten|)];
      ExtendText(source, last, before, rewritten);
      ExtendSpans(source, last, before, rewritten, beforeSpans, spans);
      last := originalEnd;
      next := NextTemplate(source, last);
    }
    rewritten := rewritten + source[last..];
  }

  /** One round of the loop moves one template from the part to do to the part done. */
  lemma ExtendText(source: string, last: nat, before: string, text: string)
    requires last <= |source| && NextTemplate(source, last).Some?
    requires var t := NextTemplate(source, last).value;
             text == before + source[last..t.start] + PlaceholderFor(StartsInString(source, t))
    ensures text + Rewritten(source, NextTemplate(source, last).value.end) == before + Rewritten(source, last)
  {
    var t := NextTemplate(source, last).value;
    ConcatAssoc(before, source[last..t.start], PlaceholderFor(StartsInString(source, t)), Rewritten(source, t.end));
  }

  lemma ExtendSpans(
    source: string, last: nat, before: string, text: string, beforeSpans: seq<RewriteSpan>, spans: seq<RewriteSpan>)
    requires last <= |source| && NextTemplate(source, last).Some?
    requires var t := NextTemplate(source, last).value;
             && text == before + source[last..t.start] + PlaceholderFor(StartsInString(source, t))
             && spans == beforeSpans + [RewriteSpan(t.start, t.end, |before + source[last..t.start]|, |text|)]
    ensures spans + Spans(source, NextTemplate(source, last).value.end, |text|) == beforeSpans + Spans(source, last, |before|)
  {
    SpanWritten(source, last, before, text);
    ExtendSpanList(source, last, |before|, beforeSpans, |text|, spans);
  }

  lemma SpanWritten(source: string, last: nat, before: string, text: string)
    requires last <= |source| && NextTemplate(source, last).Some?
    requires var t := NextTemplate(source, last).value;
             text == before + source[last..t.start] + PlaceholderFor(StartsInString(source, t))
    ensures var t := NextTemplate(source, last).value;
            RewriteSpan(t.start, t.end, |before + source[last..t.start]|, |text|) == FirstSpan(source, last, |before|, t)
  {
    var t := NextTemplate(source, last).value;
    TextLength(before, source[last..t.start], PlaceholderFor(StartsInString(source, t)));
  }

  lemma TextLength(a: string, b: string, c: string)
    ensures |a + b| == |a| + |b| && |a + b + c| == |a| + |b| + |c|
  {
  }

  lemma ExtendSpanList(source: string, last: nat, at: nat, before: seq<RewriteSpan>, end: nat, spans: seq<RewriteSpan>)
    requires last <= |source| && NextTemplate(source, last).Some?
    requires var span := FirstSpan(source, last, at, NextTemplate(source, last).value);
             spans == before + [span] && end == span.rewrittenEnd
    ensures spans + Spans(source, NextTemplate(source, last).value.end, end) == before + Spans(source, last, at)
  {
    var span := FirstSpan(source, last, at, NextTemplate(source, last).value);
    ConcatAssoc(before, [span], [], Spans(source, span.originalEnd, span.rewrittenEnd));
  }

  lemma ConcatAssoc<T>(a: seq<T>, b: seq<T>, c: seq<T>, d: seq<T>)
    ensures a + (b + c + d) == a + b + c + d
  {
  }

  // ---------------------------------------------------------------- positions

  /** Position `p` of the source, at or after `from`, is not inside a template. */
  predicate OutsideTemplates(source: string, from: nat, p: nat): (outside: bool)
    requires from <= |source|
    ensures outside ==> from <= p <= |source|
    decreases |source| - from
  {
    match NextTemplate(source, from)
    case None => from <= p <= |source|
    case Some(t) => from <= p <= t.start || (p >= t.end && OutsideTemplates(source, t.end, p))
  }

  /** Where a position outside all templates goes, counted from the image of `from`. */
  function Forward(source: string, from: nat, p: nat): nat
    requires from <= |source| && OutsideTemplates(source, from, p)
    decreases |source| - from
  {
    match NextTemplate(source, from)
    case None => p - from
    case Some(t) =>
      if p <= t.start then p - from
      else t.start - from + PlaceholderLength(StartsInString(source, t)) + Forward(source, t.end, p)
  }

  /** Outside the templates every character of the source stays, at the place its position goes to. */
  lemma {:induction false} CharactersStay(source: string, from: nat, p: nat)
    requires from <= |source| && p < |source|
    requires OutsideTemplates(source, from, p) && OutsideTemplates(source, from, p + 1)
    ensures Forward(source, from, p) < |Rewritten(source, from)|
    ensures Rewritten(source, from)[Forward(source, from, p)] == source[p]
    decreases |source| - from
  {
    if NextTemplate(source, from).Some? {
      var t := NextTemplate(source, from).value;
      LaterPlaceholder(source, from);
      if p > t.start {
        CharactersStay(source, t.end, p);
        var skipped := t.start - from + PlaceholderLength(StartsInString(source, t));
        assert Rewritten(source, from)[skipped..][Forward(source, t.end, p)] == Rewritten(source, from)[skipped + Forward(source, t.end, p)];
      } else {
        assert p < t.start;
        TakeMiddle(source[from..t.start], PlaceholderFor(StartsInString(source, t)), Rewritten(source, t.end));
      }
    }
  }

  // ---------------------------------------------------------------- lexing is preserved

  /** Scanning the template text, from the state it starts in, ends in the same string context
      with no escape pending, just as scanning either placeholder does. */
  predicate Neutral(source: string, t: Template)
    requires t.start <= t.end <= |source|
  {
    var state := Scan(OUTSIDE, source[..t.start]);
    Scan(state, source[t.start..t.end]) == Lex(state.inString, false)
  }

  predicate AllNeutral(source: string, from: nat)
    requires from <= |source|
    decreases |source| - from
  {
    match NextTemplate(source, from)
    case None => true
    case Some(t) => Neutral(source, t) && AllNeutral(source, t.end)
  }

  /** No template body contains a quotation mark or a backslash. */
  predicate PlainBodies(source: string, from: nat)
    requires from <= |source|
    decreases |source| - from
  {
    match NextTemplate(source, from)
    case None => true
    case Some(t) => '\"' !in source[t.start..t.end] && '\\' !in source[t.start..t.end] && PlainBodies(source, t.end)
  }

  lemma {:induction false} ScanPlain(state: Lex, text: string)
    requires '\"' !in text && '\\' !in text && (!state.inString ==> !state.escaped)
    ensures Scan(state, text) == if text == "" then state else Lex(state.inString, false)
    decreases |text|
  {
    if text != "" { ScanPlain(LexStep(state, text[0]), text[1..]); }
  }

  /** Outside a string no escape is ever pending. */
  lemma {:induction false} ScanShape(state: Lex, text: string)
    requires !state.inString ==> !state.escaped
    ensures !Scan(state, text).inString ==> !Scan(state, text).escaped
    decreases |text|
  {
    if text != "" { ScanShape(LexStep(state, text[0]), text[1..]); }
  }

  lemma {:induction false} PlainBodiesAreNeutral(source: string, from: nat)
    requires from <= |source| && PlainBodies(source, from)
    ensures AllNeutral(source, from)
    decreases |source| - from
  {
    match NextTemplate(source, from)
    case None =>
    case Some(t) =>
      ScanShape(OUTSIDE, source[..t.start]);
      ScanPlain(Scan(OUTSIDE, source[..t.start]), source[t.start..t.end]);
      PlainBodiesAreNeutral(source, t.end);
  }

  lemma ScanQuoted(state: Lex, inner: string)
    requires !state.inString && !state.escaped && '\"' !in inner && '\\' !in inner
    ensures Scan(state, ['\"'] + inner + ['\"']) == OUTSIDE
  {
    var tail := inner + ['\"'];
    assert ['\"'] + inner + ['\"'] == ['\"'] + tail;
    assert (['\"'] + tail)[1..] == tail;
    ScanConcat(Lex(true, false), inner, ['\"']);
    ScanPlain(Lex(true, false), inner);
    assert Scan(Lex(true, false), ['\"']) == LexStep(Lex(true, false), '\"');
  }

  lemma PlaceholdersArePlain()
    ensures '\"' !in STRING_PLACEHOLDER && '\\' !in STRING_PLACEHOLDER && STRING_PLACEHOLDER != ""
    ensures exists inner :: '\"' !in inner && '\\' !in inner && VALUE_PLACEHOLDER == ['\"'] + inner + ['\"']
  {
    var inner := "__rhythm_template__";
    assert VALUE_PLACEHOLDER == ['\"'] + inner + ['\"'];
  }

  lemma ScanPlaceholder(state: Lex)
    requires !state.inString ==> !state.escaped
    ensures Scan(state, PlaceholderFor(state.inString)) == Lex(state.inString, false)
  {
    PlaceholdersArePlain();
    if state.inString {
      ScanPlain(state, STRING_PLACEHOLDER);
    } else {
      var inner :| '\"' !in inner && '\\' !in inner && VALUE_PLACEHOLDER == ['\"'] + inner + ['\"'];
      ScanQuoted(state, inner);
    }
  }

  lemma ScanUpTo(source: string, from: nat, p: nat)
    requires from <= p <= |source|
    ensures Scan(OUTSIDE, source[..p]) == Scan(Scan(OUTSIDE, source[..from]), source[from..p])
  {
    assert source[..p] == source[..from] + source[from..p];
    ScanConcat(OUTSIDE, source[..from], source[from..p]);
  }

  /** At position `p`, outside the templates from `from` on, the scan of the rewritten text
      is in the same state as the scan of the source. */
  ghost predicate SameAt(source: string, from: nat, p: nat)
    requires from <= |source| && OutsideTemplates(source, from, p)
  {
    && Forward(source, from, p) <= |Rewritten(source, from)|
    && Scan(Scan(OUTSIDE, source[..from]), Rewritten(source, from)[..Forward(source, from, p)]) == Scan(OUTSIDE, source[..p])
  }

  ghost predicate SameLexing(source: string, from: nat)
    requires from <= |source|
  {
    forall p: nat | OutsideTemplates(source, from, p) :: SameAt(source, from, p)
  }

  /** Up to the first template the texts are equal. */
  lemma SameBeforeTemplate(source: string, from: nat, p: nat)
    requires from <= |source| && OutsideTemplates(source, from, p)
    requires NextTemplate(source, from).Some? ==> p <= NextTemplate(source, from).value.start
    ensures SameAt(source, from, p)
  {
    assert Rewritten(source, from)[..p - from] == source[from..p];
    ScanUpTo(source, from, p);
  }

  /** Past the first template the question is the same one for the rest of the text. */
  lemma SameAfterTemplate(source: string, from: nat, p: nat)
    requires from <= |source| && NextTemplate(source, from).Some?
    requires Neutral(source, NextTemplate(source, from).value)
    requires p >= NextTemplate(source, from).value.end && OutsideTemplates(source, from, p)
    ensures SameAt(source, from, p) <==> SameAt(source, NextTemplate(source, from).value.end, p)
  {
    var t := NextTemplate(source, from).value;
    var state := Scan(OUTSIDE, source[..t.start]);
    var placeholder := PlaceholderFor(StartsInString(source, t));
    var head := source[from..t.start];
    if Forward(source, t.end, p) <= |Rewritten(source, t.end)| {
      var rest := Rewritten(source, t.end)[..Forward(source, t.end, p)];
      assert Rewritten(source, from)[..Forward(source, from, p)] == head + placeholder + rest;
      ScanConcat(Scan(OUTSIDE, source[..from]), head + placeholder, rest);
      ScanConcat(Scan(OUTSIDE, source[..from]), head, placeholder);
      ScanUpTo(source, from, t.start);
      ScanShape(OUTSIDE, source[..t.start]);
      ScanPlaceholder(state);
      ScanUpTo(source, t.start, t.end);
    }
  }

  lemma {:induction false} NeutralKeepsLexing(source: string, from: nat, p: nat)
    requires from <= |source| && AllNeutral(source, from) && OutsideTemplates(source, from, p)
    ensures SameAt(source, from, p)
    decreases |source| - from
  {
    var next := NextTemplate(source, from);
    if next.None? || p <= next.value.start {
      SameBeforeTemplate(source, from, p);
    } else {
      NeutralKeepsLexing(source, next.value.end, p);
      SameAfterTemplate(source, from, p);
    }
  }

  lemma AfterTemplateIsOutside(source: string, from: nat)
    requires from <= |source| && NextTemplate(source, from).Some?
    ensures OutsideTemplates(source, NextTemplate(source, from).value.end, NextTemplate(source, from).value.end)
  {
  }

  lemma {:induction false} LexingNeedsNeutral(source: string, from: nat)
    requires from <= |source| && SameLexing(source, from)
    ensures AllNeutral(source, from)
    decreases |source| - from
  {
    var next := NextTemplate(source, from);
    if next.Some? {
      var t := next.value;
      AfterTemplateIsOutside(source, from);
      assert SameAt(source, from, t.end);
      assert Forward(source, t.end, t.end) == 0;
      var placeholder := PlaceholderFor(StartsInString(source, t));
      var head := source[from..t.start];
      assert Rewritten(source, from)[..Forward(source, from, t.end)] == head + placeholder;
      ScanConcat(Scan(OUTSIDE, source[..from]), head, placeholder);
      ScanUpTo(source, from, t.start);
      ScanShape(OUTSIDE, source[..t.start]);
      ScanPlaceholder(Scan(OUTSIDE, source[..t.start]));
      ScanUpTo(source, t.start, t.end);
      assert Neutral(source, t);
      forall p: nat | OutsideTemplates(source, t.end, p) ensures SameAt(source, t.end, p) {
        assert SameAt(source, from, p);
        SameAfterTemplate(source, from, p);
      }
      LexingNeedsNeutral(source, t.end);
    }
  }

  /** The rewriting preserves JSON lexing at every position outside the templates exactly when
      each template text, scanned where it stands, leaves the string context as it found it. */
  lemma LexingPreservedIffNeutral(source: string)
    ensures SameLexing(source, 0) <==> AllNeutral(source, 0)
  {
    if AllNeutral(source, 0) {
      forall p: nat | OutsideTemplates(source, 0, p) ensures SameAt(source, 0, p) {
        NeutralKeepsLexing(source, 0, p);
      }
    }
    if SameLexing(source, 0) {
      LexingNeedsNeutral(source, 0);
    }
  }

  /** A template that is not neutral: one quotation mark in it, outside of any string. The text
      after it is read as the inside of a string, and after the placeholder it is not. */
  lemma QuotationMarkBreaksLexing()
    ensures var source := "{{\"}}";
            !AllNeutral(source, 0) && !SameLexing(source, 0)
  {
    var source := "{{\"}}";
    var t := Template(0, 5);
    assert FindPair(source, 0, '{') == Some(0);
    assert !PairAt(source, 2, '}') && PairAt(source, 3, '}');
    assert FindPair(source, 2, '}') == FindPair(source, 3, '}') == Some(3);
    assert NextTemplate(source, 0) == Some(t);
    assert source[..0] == "" && source[0..5] == source == "{{" + "\"" + "}}";
    ScanPlain(OUTSIDE, "{{");
    ScanConcat(OUTSIDE, "{{" + "\"", "}}");
    ScanConcat(OUTSIDE, "{{", "\"");
    assert Scan(OUTSIDE, "\"") == LexStep(OUTSIDE, '\"');
    ScanPlain(Lex(true, false), "}}");
    assert !Neutral(source, t);
    LexingPreservedIffNeutral(source);
  }

  /** Templates without quotation marks and backslashes never disturb the lexing. */
  lemma PlainTemplatesPreserveLexing(source: string, p: nat)
    requires PlainBodies(source, 0) && OutsideTemplates(source, 0, p)
    ensures Forward(source, 0, p) <= |Rewritten(source, 0)|
    ensures Scan(OUTSIDE, Rewritten(source, 0)[..Forward(source, 0, p)]) == Scan(OUTSIDE, source[..p])
  {
    PlainBodiesAreNeutral(source, 0);
    NeutralKeepsLexing(source, 0, p);
    assert source[..0] == "";
  }

  // ---------------------------------------------------------------- mapping offsets back

  /** `rewrittenOffsetToOriginal`, as the recursion its loop performs. */
  function Backward(offset: int, spans: seq<RewriteSpan>, shift: int): int {
    if spans == [] then offset + shift
    else if offset <= spans[0].rewrittenStart then offset + shift
    else if offset < spans[0].rewrittenEnd then spans[0].originalStart
    else
      Backward(offset, spans[1..],
               shift + (spans[0].originalEnd - spans[0].originalStart
                        - (spans[0].rewrittenEnd - spans[0].rewrittenStart)))
  }

  method RewrittenOffsetToOriginal(offset: int, spans: seq<RewriteSpan>) returns (original: int)
    ensures original == Backward(offset, spans, 0)
  {
    var shift := 0;
    for n := 0 to |spans|
      invariant Backward(offset, spans[n..], shift) == Backward(offset, spans, 0)
    {
      var span := spans[n];
      assert spans[n..][1..] == spans[n + 1..];
      if offset <= span.rewrittenStart { return offset + shift; }
      if offset < span.rewrittenEnd { return span.originalStart; }
      shift := shift + (span.originalEnd - span.originalStart - (span.rewrittenEnd - span.rewrittenStart));
    }
    return offset + shift;
  }

  ghost predicate OrderedSpans(spans: seq<RewriteSpan>, originalFrom: nat, rewrittenFrom: nat, originalTo: nat, rewrittenTo: nat)
    decreases |spans|
  {
    if spans == [] then originalFrom <= originalTo && rewrittenFrom <= rewrittenTo
    else
      && originalFrom <= spans[0].originalStart < spans[0].originalEnd
      && rewrittenFrom <= spans[0].rewrittenStart < spans[0].rewrittenEnd
      && spans[0].originalStart - originalFrom == spans[0].rewrittenStart - rewrittenFrom
      && OrderedSpans(spans[1..], spans[0].originalEnd, spans[0].rewrittenEnd, originalTo, rewrittenTo)
  }

  lemma OrderedCons(
    span: RewriteSpan, rest: seq<RewriteSpan>, originalFrom: nat, rewrittenFrom: nat, originalTo: nat, rewrittenTo: nat)
    requires originalFrom <= span.originalStart < span.originalEnd
    requires rewrittenFrom <= span.rewrittenStart < span.rewrittenEnd
    requires span.originalStart - originalFrom == span.rewrittenStart - rewrittenFrom
    requires OrderedSpans(rest, span.originalEnd, span.rewrittenEnd, originalTo, rewrittenTo)
    ensures OrderedSpans([span] + rest, originalFrom, rewrittenFrom, originalTo, rewrittenTo)
  {
    assert ([span] + rest)[1..] == rest;
  }

  /** The length of the rewritten form of `source[from..]`. */
  function RewrittenLength(source: string, from: nat): nat
    requires from <= |source|
    decreases |source| - from
  {
    match NextTemplate(source, from)
    case None => |source| - from
    case Some(t) => t.start - from + PlaceholderLength(StartsInString(source, t)) + RewrittenLength(source, t.end)
  }

  lemma {:induction false} RewrittenHasLength(source: string, from: nat)
    requires from <= |source|
    ensures |Rewritten(source, from)| == RewrittenLength(source, from)
    decreases |source| - from
  {
    if NextTemplate(source, from).Some? { RewrittenHasLength(source, NextTemplate(source, from).value.end); }
  }

  lemma {:induction false} SpansAreOrderedTo(source: string, from: nat, at: nat)
    requires from <= |source|
    ensures OrderedSpans(Spans(source, from, at), from, at, |source|, at + RewrittenLength(source, from))
    decreases |source| - from
  {
    if NextTemplate(source, from).Some? {
      var t := NextTemplate(source, from).value;
      var span := FirstSpan(source, from, at, t);
      SpansAreOrderedTo(source, t.end, span.rewrittenEnd);
      OrderedCons(span, Spans(source, t.end, span.rewrittenEnd), from, at, |source|, at + RewrittenLength(source, from));
    }
  }

  /** The recorded spans are in order and disjoint in both texts, lie inside them, and the
      stretches between them have equal lengths. */
  lemma SpansAreOrdered(source: string, from: nat, at: nat)
    requires from <= |source|
    ensures OrderedSpans(Spans(source, from, at), from, at, |source|, at + |Rewritten(source, from)|)
  {
    SpansAreOrderedTo(source, from, at);
    RewrittenHasLength(source, from);
  }

  lemma FirstPlaceholder(source: string, from: nat)
    requires from <= |source| && NextTemplate(source, from).Some?
    ensures var t := NextTemplate(source, from).value;
            var placeholder := PlaceholderFor(StartsInString(source, t));
            && t.start - from + |placeholder| <= |Rewritten(source, from)|
            && Rewritten(source, from)[t.start - from..][..|placeholder|] == placeholder
            && Rewritten(source, from)[t.start - from..t.start - from + |placeholder|] == placeholder
  {
    var t := NextTemplate(source, from).value;
    TakeMiddle(source[from..t.start], PlaceholderFor(StartsInString(source, t)), Rewritten(source, t.end));
  }

  lemma LaterPlaceholder(source: string, from: nat)
    requires from <= |source| && NextTemplate(source, from).Some?
    ensures var t := NextTemplate(source, from).value;
            var skipped := t.start - from + PlaceholderLength(StartsInString(source, t));
            && |Rewritten(source, from)| == skipped + |Rewritten(source, t.end)|
            && Rewritten(source, from)[skipped..] == Rewritten(source, t.end)
  {
    var t := NextTemplate(source, from).value;
    TakeMiddle(source[from..t.start], PlaceholderFor(StartsInString(source, t)), Rewritten(source, t.end));
  }

  lemma TakeMiddle(a: string, b: string, c: string)
    ensures (a + b + c)[|a|..|a| + |b|] == b && (a + b + c)[|a|..][..|b|] == b && (a + b + c)[|a| + |b|..] == c
  {
  }

  /** The span covers a template of the source, and in a text that begins at offset `at` it
      covers the placeholder that suits the place: the bare word inside a string literal, the
      quoted one elsewhere. */
  ghost predicate Covers(source: string, span: RewriteSpan, text: string, at: nat) {
    && CoversTemplate(source, span)
    && at <= span.rewrittenStart <= span.rewrittenEnd <= at + |text|
    && text[span.rewrittenStart - at..span.rewrittenEnd - at] ==
       if EndsInString(source[..span.originalStart]) then "rhythmTemplate" else "\"__rhythm_template__\""
  }

  predicate CoversTemplate(source: string, span: RewriteSpan) {
    && span.originalStart + 4 <= span.originalEnd <= |source|
    && source[span.originalStart..span.originalStart + 2] == "{{"
    && source[span.originalEnd - 2..span.originalEnd] == "}}"
  }

  lemma CoversBehind(source: string, span: RewriteSpan, text: string, at: nat, skipped: nat)
    requires skipped <= |text| && Covers(source, span, text[skipped..], at + skipped)
    ensures Covers(source, span, text, at)
  {
    var start, end := span.rewrittenStart - at, span.rewrittenEnd - at;
    assert text[skipped..][start - skipped..end - skipped] == text[start..end];
  }

  /** Each recorded span covers a template of the source, and in the rewritten text it covers
      the placeholder for it. */
  lemma {:induction false} SpansCoverPlaceholders(source: string, from: nat, at: nat, span: RewriteSpan)
    requires from <= |source| && span in Spans(source, from, at)
    ensures Covers(source, span, Rewritten(source, from), at)
    decreases |source| - from
  {
    var t := NextTemplate(source, from).value;
    var first := FirstSpan(source, from, at, t);
    if span == first {
      FirstSpanCovers(source, from, at);
    } else {
      SpansCoverPlaceholders(source, t.end, first.rewrittenEnd, span);
      LaterPlaceholder(source, from);
      CoversBehind(source, span, Rewritten(source, from), at, first.rewrittenEnd - at);
    }
  }

  lemma FirstSpanCovers(source: string, from: nat, at: nat)
    requires from <= |source| && NextTemplate(source, from).Some?
    ensures Covers(source, FirstSpan(source, from, at, NextTemplate(source, from).value), Rewritten(source, from), at)
  {
    TemplateText(source, from);
    InStringIff(source[..NextTemplate(source, from).value.start]);
    FirstPlaceholder(source, from);
  }

  lemma TemplateText(source: string, from: nat)
    requires NextTemplate(source, from).Some?
    ensures var t := NextTemplate(source, from).value;
            source[t.start..t.start + 2] == "{{" && source[t.end - 2..t.end] == "}}"
  {
    NextTemplateIsLeftmostShortest(source, from);
  }

  /** An offset at or after the end of the first span is mapped by the rest of the spans. */
  lemma BackwardPast(source: string, from: nat, at: nat, offset: int)
    requires from <= |source| && NextTemplate(source, from).Some?
    requires offset >= at + (NextTemplate(source, from).value.start - from)
                       + PlaceholderLength(StartsInString(source, NextTemplate(source, from).value))
    ensures var t := NextTemplate(source, from).value;
            var end := at + (t.start - from) + PlaceholderLength(StartsInString(source, t));
            Backward(offset, Spans(source, from, at), from - at) == Backward(offset, Spans(source, t.end, end), t.end - end)
  {
    var t := NextTemplate(source, from).value;
    var start := at + (t.start - from);
    var end := start + PlaceholderLength(StartsInString(source, t));
    var span, rest := RewriteSpan(t.start, t.end, start, end), Spans(source, t.end, end);
    assert Spans(source, from, at) == [span] + rest;
    assert ([span] + rest)[1..] == rest;
    assert from - at + (t.end - t.start - (end - start)) == t.end - end;
  }

  /** Going forward and back is the identity outside the templates. */
  lemma {:induction false} ForwardThenBackward(source: string, from: nat, at: nat, p: nat, offset: nat)
    requires from <= |source| && OutsideTemplates(source, from, p)
    requires offset == at + Forward(source, from, p)
    ensures Backward(offset, Spans(source, from, at), from - at) == p
    decreases |source| - from
  {
    var next := NextTemplate(source, from);
    if next.Some? && p > next.value.start {
      var t := next.value;
      var end := at + (t.start - from) + PlaceholderLength(StartsInString(source, t));
      ForwardThenBackward(source, t.end, end, p, offset);
      BackwardPast(source, from, at, offset);
    } else {
      BackwardBefore(source, from, at, p, offset);
    }
  }

  lemma BackwardBefore(source: string, from: nat, at: nat, p: nat, offset: nat)
    requires from <= p <= |source| && offset == at + (p - from)
    requires NextTemplate(source, from).Some? ==> p <= NextTemplate(source, from).value.start
    ensures Backward(offset, Spans(source, from, at), from - at) == p
  {
  }

  /** Mapping back is monotone and stays inside the source text. */
  lemma {:induction false} BackwardMonotone(
    spans: seq<RewriteSpan>, originalFrom: nat, rewrittenFrom: nat, originalTo: nat, rewrittenTo: nat, a: int, b: int)
    requires OrderedSpans(spans, originalFrom, rewrittenFrom, originalTo, rewrittenTo)
    requires originalTo - originalFrom == rewrittenTo - rewrittenFrom + Shift(spans)
    requires rewrittenFrom <= a <= b <= rewrittenTo
    ensures originalFrom <= Backward(a, spans, originalFrom - rewrittenFrom)
                         <= Backward(b, spans, originalFrom - rewrittenFrom) <= originalTo
    decreases |spans|
  {
    if spans != [] {
      var s := spans[0];
      RangeOfSpans(spans[1..], s.originalEnd, s.rewrittenEnd, originalTo, rewrittenTo);
      if a >= s.rewrittenEnd {
        BackwardMonotone(spans[1..], s.originalEnd, s.rewrittenEnd, originalTo, rewrittenTo, a, b);
      } else if b >= s.rewrittenEnd {
        BackwardMonotone(spans[1..], s.originalEnd, s.rewrittenEnd, originalTo, rewrittenTo, b, b);
      }
    }
  }

  function Shift(spans: seq<RewriteSpan>): int {
    if spans == [] then 0
    else spans[0].originalEnd - spans[0].originalStart - (spans[0].rewrittenEnd - spans[0].rewrittenStart) + Shift(spans[1..])
  }

  lemma {:induction false} RangeOfSpans(
    spans: seq<RewriteSpan>, originalFrom: nat, rewrittenFrom: nat, originalTo: nat, rewrittenTo: nat)
    requires OrderedSpans(spans, originalFrom, rewrittenFrom, originalTo, rewrittenTo)
    ensures originalFrom <= originalTo && rewrittenFrom <= rewrittenTo
    decreases |spans|
  {
    if spans != [] {
      RangeOfSpans(spans[1..], spans[0].originalEnd, spans[0].rewrittenEnd, originalTo, rewrittenTo);
    }
  }

  lemma {:induction false} SpansShift(source: string, from: nat, at: nat)
    requires from <= |source|
    ensures |source| - from == RewrittenLength(source, from) + Shift(Spans(source, from, at))
    decreases |source| - from
  {
    if NextTemplate(source, from).Some? {
      var t := NextTemplate(source, from).value;
      var span := FirstSpan(source, from, at, t);
      var rest := Spans(source, t.end, span.rewrittenEnd);
      SpansShift(source, t.end, span.rewrittenEnd);
      assert ([span] + rest)[1..] == rest;
    }
  }

  /** Mapping back keeps the order of offsets and stays inside the source; with `from` and
      `at` zero this is the map of a whole text. */
  lemma OffsetMapMonotone(source: string, from: nat, at: nat, a: int, b: int)
    requires from <= |source| && at <= a <= b <= at + |Rewritten(source, from)|
    ensures from <= Backward(a, Spans(source, from, at), from - at)
                 <= Backward(b, Spans(source, from, at), from - at) <= |source|
  {
    SpansAreOrderedTo(source, from, at);
    SpansShift(source, from, at);
    RewrittenHasLength(source, from);
    BackwardMonotone(Spans(source, from, at), from, at, |source|, at + RewrittenLength(source, from), a, b);
  }

  /** An error offset inside a placeholder is reported at the start of its template. */
  lemma {:induction false} InsidePlaceholder(
    spans: seq<RewriteSpan>, originalFrom: nat, rewrittenFrom: nat, originalTo: nat, rewrittenTo: nat,
    k: nat, offset: int, shift: int)
    requires OrderedSpans(spans, originalFrom, rewrittenFrom, originalTo, rewrittenTo) && k < |spans|
    requires spans[k].rewrittenStart < offset < spans[k].rewrittenEnd
    ensures Backward(offset, spans, shift) == spans[k].originalStart
    decreases |spans|
  {
    if k > 0 {
      var s := spans[0];
      SpanStartsAfter(spans[1..], s.originalEnd, s.rewrittenEnd, originalTo, rewrittenTo, k - 1);
      InsidePlaceholder(spans[1..], s.originalEnd, s.rewrittenEnd, originalTo, rewrittenTo, k - 1, offset,
                        shift + (s.originalEnd - s.originalStart - (s.rewrittenEnd - s.rewrittenStart)));
    }
  }

  lemma {:induction false} SpanStartsAfter(
    spans: seq<RewriteSpan>, originalFrom: nat, rewrittenFrom: nat, originalTo: nat, rewrittenTo: nat, k: nat)
    requires OrderedSpans(spans, originalFrom, rewrittenFrom, originalTo, rewrittenTo) && k < |spans|
    ensures rewrittenFrom <= spans[k].rewrittenStart
    decreases |spans|
  {
    if k > 0 {
      SpanStartsAfter(spans[1..], spans[0].originalEnd, spans[0].rewrittenEnd, originalTo, rewrittenTo, k - 1);
    }
  }

  // ---------------------------------------------------------------- lines and columns

  datatype Position = Position(line: nat, column: nat)

  function CountLines(text: string): nat {
    if text == "" then 0
    else CountLines(text[..|text| - 1]) + if text[|text| - 1] == '\n' then 1 else 0
  }

  /** How many characters follow the last line break. */
  function LastLineLength(text: string): (n: nat)
    ensures n <= |text|
    ensures '\n' !in text[|text| - n..]
    ensures n < |text| ==> text[|text| - n - 1] == '\n'
  {
    if text == "" || text[|text| - 1] == '\n' then 0
    else
      var rest := text[..|text| - 1];
      var n := LastLineLength(rest);
      assert text[|text| - n - 1..] == rest[|rest| - n..] + [text[|text| - 1]];
      n + 1
  }

  /** Line and column of an offset: one more than the line breaks before it, and one more
      than the characters since the last of them. */
  function PositionAt(source: string, offset: nat): Position
    requires offset <= |source|
  {
    Position(1 + CountLines(source[..offset]), 1 + LastLineLength(source[..offset]))
  }

  function Clamp(offset: int, length: nat): (clamped: nat)
    ensures 0 <= offset <= length ==> clamped == offset
    ensures offset < 0 ==> clamped == 0
    ensures offset > length ==> clamped == length
  {
    if offset < 0 then 0 else if offset > length then length else offset
  }

  method OffsetToLineColumn(source: string, offset: int) returns (position: Position)
    ensures position == PositionAt(source, Clamp(offset, |source|))
  {
    var clamped := Clamp(offset, |source|);
    var line, column := 1, 1;
    for index := 0 to clamped
      invariant Position(line, column) == PositionAt(source, index)
    {
      assert source[..index + 1][..index] == source[..index];
      if source[index] == '\n' {
        line := line + 1;
        column := 1;
      } else {
        column := column + 1;
      }
    }
    position := Position(line, column);
  }

  ghost function Breaks(source: string, offset: nat): set<nat>
    requires offset <= |source|
  {
    set i: nat | i < offset && source[i] == '\n'
  }

  /** Lines and columns count from 1: the line is one more than the number of line breaks before
      the offset, the column the distance from the last of them, or from before the text. */
  lemma PositionIs(source: string, offset: nat, last: int)
    requires offset <= |source| && -1 <= last < offset && (last == -1 || source[last] == '\n')
    requires forall i | last < i < offset :: source[i] != '\n'
    ensures PositionAt(source, offset).line == 1 + |Breaks(source, offset)|
    ensures PositionAt(source, offset).column == offset - last
  {
    LinesCounted(source, offset);
    LengthSinceBreak(source, offset, last);
  }

  lemma {:induction false} LengthSinceBreak(source: string, offset: nat, last: int)
    requires offset <= |source| && -1 <= last < offset && (last == -1 || source[last] == '\n')
    requires forall i | last < i < offset :: source[i] != '\n'
    ensures LastLineLength(source[..offset]) == offset - last - 1
    decreases offset
  {
    if last + 1 < offset {
      assert source[..offset][..offset - 1] == source[..offset - 1];
      LengthSinceBreak(source, offset - 1, last);
    }
  }

  lemma {:induction false} LinesCounted(source: string, offset: nat)
    requires offset <= |source|
    ensures CountLines(source[..offset]) == |Breaks(source, offset)|
    decreases offset
  {
    if offset == 0 {
      assert Breaks(source, 0) == {};
    } else {
      LinesCounted(source, offset - 1);
      assert source[..offset][..offset - 1] == source[..offset - 1];
      var before := Breaks(source, offset - 1);
      assert Breaks(source, offset) == if source[offset - 1] == '\n' then before + {offset - 1} else before;
    }
  }

  predicate Before(a: Position, b: Position) {
    a.line < b.line || (a.line == b.line && a.column < b.column)
  }

  /** Different offsets in range get different positions, in the order of the offsets. */
  lemma {:induction false} PositionsIncrease(source: string, a: nat, b: nat)
    requires a < b <= |source|
    ensures Before(PositionAt(source, a), PositionAt(source, b))
    decreases b - a
  {
    assert source[..b][..b - 1] == source[..b - 1];
    if a < b - 1 { PositionsIncrease(source, a, b - 1); }
  }
}
