/** The string lexer of the templated-JSON checker, and what a string literal is in the grammar of
    JSON, to compare it with. */
module JsonStrings {

  // ---------------------------------------------------------------- the string lexer

  /** State of a scan that only tells string literals apart. */
  datatype Lex = Lex(inString: bool, escaped: bool)

  const OUTSIDE := Lex(false, false)

  function LexStep(state: Lex, c: char): Lex {
    if state.inString then
      if state.escaped then Lex(true, false)
      else if c == '\\' then Lex(true, true)
      else if c == '\"' then Lex(false, false)
      else state
    else if c == '\"' then Lex(true, state.escaped)
    else state
  }

  function Scan(state: Lex, text: string): Lex
    decreases |text|
  {
    if text == "" then state else Scan(LexStep(state, text[0]), text[1..])
  }

  lemma {:induction false} ScanConcat(state: Lex, a: string, b: string)
    ensures Scan(state, a + b) == Scan(Scan(state, a), b)
    decreases |a|
  {
    if a == "" {
      assert a + b == b;
    } else {
      assert (a + b)[1..] == a[1..] + b;
      ScanConcat(LexStep(state, a[0]), a[1..], b);
    }
  }

  /** `isInsideJsonString`: the loop over the characters before `index`. */
  method IsInsideJsonString(source: string, index: nat) returns (inString: bool)
    requires index <= |source|
    ensures inString == Scan(OUTSIDE, source[..index]).inString
  {
    inString := false;
    var escaped := false;
    for cursor := 0 to index
      invariant Lex(inString, escaped) == Scan(OUTSIDE, source[..cursor])
    {
      var character := source[cursor];
      ghost var before := Lex(inString, escaped);
      if inString {
        if escaped { escaped := false; }
        else if character == '\\' { escaped := true; }
        else if character == '\"' { inString := false; }
      } else if character == '\"' {
        inString := true;
      }
      assert source[..cursor + 1] == source[..cursor] + [character];
      ScanConcat(OUTSIDE, source[..cursor], [character]);
      assert Scan(before, [character]) == LexStep(before, character);
    }
  }

  // ---------------------------------------------------------------- strings in the JSON grammar

  /** What may stand between the quotation marks of a JSON string: characters other than the
      quotation mark and the backslash, and pairs of a backslash and any character. */
  predicate StringBody(s: string) {
    || s == ""
    || (s[0] != '\"' && s[0] != '\\' && StringBody(s[1..]))
    || (|s| >= 2 && s[0] == '\\' && StringBody(s[2..]))
  }

  /** A stretch of text without quotation marks, or a whole string literal with this body. */
  datatype Chunk = Bare(text: string) | Literal(body: string)
  {
    predicate WellFormed() {
      match this
      case Bare(text) => '\"' !in text
      case Literal(body) => StringBody(body)
    }

    function Written(): string {
      match this
      case Bare(text) => text
      case Literal(body) => "\"" + body + "\""
    }
  }

  function WrittenAll(chunks: seq<Chunk>): string {
    if chunks == [] then "" else WrittenAll(chunks[..|chunks| - 1]) + chunks[|chunks| - 1].Written()
  }

  ghost predicate WellFormedAll(chunks: seq<Chunk>) {
    forall i | 0 <= i < |chunks| :: chunks[i].WellFormed()
  }

  /** The text is a sequence of bare stretches and whole literals. */
  ghost predicate Closed(s: string) {
    exists chunks :: WellFormedAll(chunks) && WrittenAll(chunks) == s
  }

  /** The text ends inside a string literal: in its body, or right after a backslash in it. */
  ghost predicate EndsInString(s: string) {
    exists outer, body :: Closed(outer) && StringBody(body) && (s == outer + "\"" + body || s == outer + "\"" + body + "\\")
  }

  lemma {:induction false} StringBodyConcat(a: string, b: string)
    requires StringBody(a) && StringBody(b)
    ensures StringBody(a + b)
    decreases |a|
  {
    if a == "" {
      assert a + b == b;
    } else if a[0] != '\\' {
      assert (a + b)[1..] == a[1..] + b;
      StringBodyConcat(a[1..], b);
    } else {
      assert (a + b)[2..] == a[2..] + b;
      StringBodyConcat(a[2..], b);
    }
  }

  lemma {:induction false} ScanBody(body: string)
    requires StringBody(body)
    ensures Scan(Lex(true, false), body) == Lex(true, false)
    decreases |body|
  {
    if body != "" {
      if body[0] == '\\' {
        assert body[1..][1..] == body[2..];
        assert Scan(Lex(true, false), body) == Scan(Lex(true, true), body[1..]);
        ScanBody(body[2..]);
      } else {
        ScanBody(body[1..]);
      }
    }
  }

  lemma ScanOne(state: Lex, c: char)
    ensures Scan(state, [c]) == LexStep(state, c)
  {
  }

  /** The scan after the opening quotation mark of a literal, after its body, after a backslash
      that follows, and after its closing quotation mark. */
  lemma ScanLiteral(body: string)
    requires StringBody(body)
    ensures Scan(OUTSIDE, "\"" + body) == Lex(true, false)
    ensures Scan(OUTSIDE, "\"" + body + "\\") == Lex(true, true)
    ensures Scan(OUTSIDE, "\"" + body + "\"") == OUTSIDE
  {
    ScanConcat(OUTSIDE, "\"", body);
    ScanOne(OUTSIDE, '\"');
    ScanBody(body);
    ScanConcat(OUTSIDE, "\"" + body, "\\");
    ScanOne(Lex(true, false), '\\');
    ScanConcat(OUTSIDE, "\"" + body, "\"");
    ScanOne(Lex(true, false), '\"');
  }

  lemma {:induction false} ScanBare(text: string)
    requires '\"' !in text
    ensures Scan(OUTSIDE, text) == OUTSIDE
    decreases |text|
  {
    if text != "" { ScanBare(text[1..]); }
  }

  lemma {:induction false} ScanChunks(chunks: seq<Chunk>)
    requires WellFormedAll(chunks)
    ensures Scan(OUTSIDE, WrittenAll(chunks)) == OUTSIDE
    decreases |chunks|
  {
    if chunks != [] {
      var front, last := chunks[..|chunks| - 1], chunks[|chunks| - 1];
      ScanChunks(front);
      ScanConcat(OUTSIDE, WrittenAll(front), last.Written());
      assert last.WellFormed();
      match last
      case Bare(text) => ScanBare(text);
      case Literal(body) => ScanLiteral(body);
    }
  }

  lemma WrittenAllSnoc(chunks: seq<Chunk>, chunk: Chunk)
    requires WellFormedAll(chunks) && chunk.WellFormed()
    ensures WellFormedAll(chunks + [chunk]) && WrittenAll(chunks + [chunk]) == WrittenAll(chunks) + chunk.Written()
  {
    assert (chunks + [chunk])[..|chunks|] == chunks;
  }

  lemma ClosedThen(outer: string, chunk: Chunk)
    requires Closed(outer) && chunk.WellFormed()
    ensures Closed(outer + chunk.Written())
  {
    var chunks :| WellFormedAll(chunks) && WrittenAll(chunks) == outer;
    WrittenAllSnoc(chunks, chunk);
  }

  lemma ScanClosed(s: string)
    requires Closed(s)
    ensures Scan(OUTSIDE, s) == OUTSIDE
  {
    var chunks :| WellFormedAll(chunks) && WrittenAll(chunks) == s;
    ScanChunks(chunks);
  }

  /** Every text is closed, ends in the body of a literal, or ends after a backslash in one. */
  datatype Ending = Outside | InBody(outer: string, body: string) | AfterBackslash(outer: string, body: string)

  ghost predicate HasEnding(s: string, e: Ending) {
    match e
    case Outside => Closed(s)
    case InBody(outer, body) => Closed(outer) && StringBody(body) && s == outer + "\"" + body
    case AfterBackslash(outer, body) => Closed(outer) && StringBody(body) && s == outer + "\"" + body + "\\"
  }

  lemma NextEnding(s: string, e: Ending, c: char) returns (next: Ending)
    requires HasEnding(s, e)
    ensures HasEnding(s + [c], next)
  {
    match e
    case Outside =>
      if c == '\"' {
        next := InBody(s, "");
        assert s + [c] == s + "\"" + "";
      } else {
        next := Outside;
        ClosedThen(s, Bare([c]));
      }
    case InBody(outer, body) =>
      if c == '\"' {
        next := Outside;
        ClosesLiteral(outer, body);
      } else {
        next := if c == '\\' then AfterBackslash(outer, body) else InBody(outer, body + [c]);
        StaysInBody(outer, body, c);
      }
    case AfterBackslash(outer, body) =>
      next := InBody(outer, body + ['\\', c]);
      PairIsBody(c);
      StringBodyConcat(body, ['\\', c]);
      assert s + [c] == outer + "\"" + (body + ['\\', c]);
  }

  lemma PairIsBody(c: char)
    ensures StringBody(['\\', c]) && (c != '\"' && c != '\\' ==> StringBody([c]))
  {
    assert ['\\', c][2..] == "" && [c][1..] == "";
  }

  lemma ClosesLiteral(outer: string, body: string)
    requires Closed(outer) && StringBody(body)
    ensures Closed(outer + "\"" + body + "\"")
  {
    ClosedThen(outer, Literal(body));
    assert outer + "\"" + body + "\"" == outer + Literal(body).Written();
  }

  lemma StaysInBody(outer: string, body: string, c: char)
    requires StringBody(body)
    ensures c != '\"' && c != '\\' ==> StringBody(body + [c])
    ensures outer + "\"" + body + [c] == outer + "\"" + (body + [c])
  {
    PairIsBody(c);
    if c != '\"' && c != '\\' { StringBodyConcat(body, [c]); }
  }

  lemma {:induction false} EndingOf(s: string) returns (e: Ending)
    ensures HasEnding(s, e)
    decreases |s|
  {
    if s == "" {
      e := Outside;
      assert WellFormedAll([]) && WrittenAll([]) == "";
    } else {
      var before := EndingOf(s[..|s| - 1]);
      e := NextEnding(s[..|s| - 1], before, s[|s| - 1]);
      assert s == s[..|s| - 1] + [s[|s| - 1]];
    }
  }

  lemma ScanOpen(outer: string, body: string)
    requires Closed(outer) && StringBody(body)
    ensures Scan(OUTSIDE, outer + "\"" + body) == Lex(true, false)
    ensures Scan(OUTSIDE, outer + "\"" + body + "\\") == Lex(true, true)
  {
    ScanClosed(outer);
    ScanLiteral(body);
    ScanConcat(OUTSIDE, outer, "\"" + body);
    assert outer + "\"" + body == outer + ("\"" + body);
    ScanConcat(OUTSIDE, outer + "\"" + body, "\\");
    ScanOne(Lex(true, false), '\\');
  }

  lemma ScanEnding(s: string, e: Ending)
    requires HasEnding(s, e)
    ensures Scan(OUTSIDE, s).inString <==> !e.Outside?
    ensures !e.Outside? ==> EndsInString(s)
  {
    match e
    case Outside => ScanClosed(s);
    case InBody(outer, body) => ScanOpen(outer, body);
    case AfterBackslash(outer, body) => ScanOpen(outer, body);
  }

  /** The lexer is right: it is inside a string exactly when the text read so far ends inside a
      string literal of the JSON grammar. */
  lemma InStringIff(s: string)
    ensures Scan(OUTSIDE, s).inString <==> EndsInString(s)
    ensures !Scan(OUTSIDE, s).inString <==> Closed(s)
  {
    var e := EndingOf(s);
    ScanEnding(s, e);
    if EndsInString(s) {
      var outer, body :| Closed(outer) && StringBody(body) && (s == outer + "\"" + body || s == outer + "\"" + body + "\\");
      ScanOpen(outer, body);
    }
    if Closed(s) { ScanClosed(s); }
  }
}
