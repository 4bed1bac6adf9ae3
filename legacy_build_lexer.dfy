/** The older lexer-specification compiler of `lemon-py/BuildLexer.py`. Its
    lexer block is a `/*LEXDEF ... */` comment whose lines are `TOKEN : PATTERN`
    pairs; a token starting with `!` is skipped input, a pattern starting with
    `=` a literal, anything else a regex. Patterns are copied between double
    quotes without any escaping. The `LEXER_START` and `LEXER_END` texts of
    this file are the same as those of the newer compiler and are shared. */
module LegacyBuildLexer {
  import opened Wrappers
  import opened PyStr
  import BuildLexer

  /** One `TOKEN : PATTERN` line, both fields stripped. */
  datatype Entry = Entry(tok: string, pattern: string)

  const LexdefMarker: string := "/*LEXDEF"
  const NoLexerDefinitions: string := "No lexer definitions found."

  // ---------------------------------------------------------------- extract_lexer_def

  /** One block line: `s.strip().split(':')`, then the first two fields
      stripped; a line without `:` has one field, and `t[1]` raises. Fields
      after the second are dropped. */
  function EntryOf(line: string): (r: Result<Entry, PyError>)
    ensures r.Err? <==> ':' !in Strip(line)
    ensures r.Err? ==> r.error == IndexError
  {
    var fields := SplitOn(Strip(line), ':');
    if |fields| < 2 then
      assert JoinWith(fields, [':']) == fields[0];
      Err(IndexError)
    else
      assert ':' in Strip(line) by { SplitOnSeveral(Strip(line), ':'); }
      Ok(Entry(Strip(fields[0]), Strip(fields[1])))
  }

  /** Splitting on `c` gives several fields exactly when `c` occurs. */
  lemma SplitOnSeveral(s: string, c: char)
    requires |SplitOn(s, c)| >= 2
    ensures c in s
  {
    var f := SplitOn(s, c);
    assert JoinWith(f, [c]) == f[0] + [c] + JoinWith(f[1..], [c]);
    assert s[|f[0]|] == c;
  }

  /** The lines between the `/*LEXDEF` line and `*/`, cut with `source[start:end]`. */
  function BlockLines(source: string): (r: seq<string>)
    requires Find(source, LexdefMarker) >= 0
  {
    var start := Find(source, LexdefMarker);
    var raw := SplitLines(Slice(source, start, FindFrom(source, "*/", start)));
    if |raw| == 0 then [] else raw[1..]
  }

  /** The results of the block lines, one per line. */
  function EntryResults(lines: seq<string>): (r: seq<Result<Entry, PyError>>)
    ensures |r| == |lines| && forall k :: 0 <= k < |lines| ==> r[k] == EntryOf(lines[k])
  {
    seq(|lines|, k requires 0 <= k < |lines| => EntryOf(lines[k]))
  }

  /** The entries of the block lines, in order, or the first line's error. */
  function Entries(lines: seq<string>): Result<seq<Entry>, PyError> {
    AllOk(EntryResults(lines))
  }

  /** Every line gives its entry, in order, when none raises. */
  lemma EntriesInOrder(lines: seq<string>)
    ensures Entries(lines).Ok? <==> forall k :: 0 <= k < |lines| ==> EntryOf(lines[k]).Ok?
    ensures Entries(lines).Ok? ==> |Entries(lines).value| == |lines|
    ensures Entries(lines).Ok? ==> forall k :: 0 <= k < |lines| ==> Entries(lines).value[k] == EntryOf(lines[k]).value
  {
  }

  /** The only error a block line raises is `IndexError`, at the first line without `:`. */
  lemma EntriesError(lines: seq<string>)
    ensures Entries(lines).Err? ==> Entries(lines).error == IndexError
    ensures Entries(lines).Err? ==>
      exists k :: (0 <= k < |lines| && ':' !in Strip(lines[k]) && forall j :: 0 <= j < k ==> ':' in Strip(lines[j]))
  {
  }

  /** `extract_lexer_def`: one entry per block line, in order; `RuntimeError`
      without the marker. */
  function ExtractLexerDef(source: string): (r: Result<seq<Entry>, PyError>)
    ensures Find(source, LexdefMarker) < 0 <==> r == Err(RuntimeError(NoLexerDefinitions))
    ensures Find(source, LexdefMarker) >= 0 ==> r == Entries(BlockLines(source))
  {
    if Find(source, LexdefMarker) < 0 then Err(RuntimeError(NoLexerDefinitions))
    else Entries(BlockLines(source))
  }

  /** Splitting at a first separator. */
  lemma SplitOnFirst(a: string, c: char, b: string)
    requires c !in a
    ensures SplitOn(a + [c] + b, c) == [a] + SplitOn(b, c)
  {
    var s := a + [c] + b;
    assert OccursAt(s, [c], |a|) by { assert s[|a|..|a| + 1] == [c]; }
    forall i | 0 <= i < |a| ensures !OccursAt(s, [c], i) {
      assert s[i..i + 1] == [a[i]];
    }
    assert s[..|a|] == a;
    assert s[|a| + 1..] == b;
  }

  /** A line whose stripped text splits into at least two fields gives the
      entry of the first two, stripped. */
  lemma EntryOfFields(line: string, f0: string, f1: string, rest: seq<string>)
    requires SplitOn(Strip(line), ':') == [f0, f1] + rest
    ensures EntryOf(line) == Ok(Entry(Strip(f0), Strip(f1)))
  {
  }

  /** The fields of a stripped line `tok a : b pat` with no other colon. */
  lemma PaddedFields(tok: string, pat: string, a: string, b: string)
    requires ':' !in tok && ':' !in pat && ':' !in a && ':' !in b
    requires Stripped(tok + a + ":" + b + pat)
    ensures SplitOn(Strip(tok + a + ":" + b + pat), ':') == [tok + a, b + pat] + []
  {
    var line := tok + a + ":" + b + pat;
    assert line == (tok + a) + [':'] + (b + pat);
    assert ':' !in tok + a;
    assert ':' !in b + pat;
    StrippedFixed(line);
    SplitOnFirst(tok + a, ':', b + pat);
    NoColonNotFound(b + pat, 0);
  }

  /** A line `tok : pat` with both sides padded reads back as the entry `(tok, pat)`. */
  lemma EntryRoundTrip(tok: string, pat: string, a: string, b: string)
    requires ':' !in tok && ':' !in pat && ':' !in a && ':' !in b
    requires Stripped(tok) && Stripped(pat) && AllSpace(a) && AllSpace(b)
    requires Stripped(tok + a + ":" + b + pat)
    ensures EntryOf(tok + a + ":" + b + pat) == Ok(Entry(tok, pat))
  {
    PaddedFields(tok, pat, a, b);
    StripPadded([], tok, a);
    StripPadded(b, pat, []);
    assert [] + tok + a == tok + a;
    assert b + pat + [] == b + pat;
    EntryOfFields(tok + a + ":" + b + pat, tok + a, b + pat, []);
  }

  /** Text without `:` has no occurrence of `":"`. */
  lemma {:induction false} NoColonNotFound(s: string, i: nat)
    requires ':' !in s && i <= |s|
    ensures FindFrom(s, [':'], i) < 0
    decreases |s| - i
  {
    if i < |s| {
      assert !OccursAt(s, [':'], i) by { assert s[i] != ':'; }
      NoColonNotFound(s, i + 1);
    }
  }

  /** Fields after the second are discarded. */
  lemma ExtraFieldsDropped(tok: string, pat: string, more: string)
    requires ':' !in tok && ':' !in pat
    requires Stripped(tok + ":" + pat + ":" + more)
    ensures EntryOf(tok + ":" + pat + ":" + more) == Ok(Entry(Strip(tok), Strip(pat)))
  {
    var line := tok + ":" + pat + ":" + more;
    assert SplitOn(Strip(line), ':') == [tok, pat] + SplitOn(more, ':') by {
      assert line == tok + [':'] + (pat + [':'] + more);
      StrippedFixed(line);
      SplitOnFirst(tok, ':', pat + [':'] + more);
      SplitOnFirst(pat, ':', more);
    }
    EntryOfFields(line, tok, pat, SplitOn(more, ':'));
  }

  // ---------------------------------------------------------------- implement_lexer

  const SkipCall: string := "_parser_impl::Lexer::add_skip("
  const LiteralCall: string := "_parser_impl::Lexer::add_literal("
  const RegexCall: string := "_parser_impl::Lexer::add_value_type("
  const CallEnd: string := "\");\n"

  /** `implement_skip`. */
  function ImplementSkip(regex: string): string {
    SkipCall + "\"" + regex + CallEnd
  }

  /** `implement_literal`. */
  function ImplementLiteral(token: string, litval: string): string {
    LiteralCall + token + ", " + "\"" + litval + CallEnd
  }

  /** `implement_regex`. */
  function ImplementRegex(token: string, regex: string): string {
    RegexCall + token + ", " + "\"" + regex + CallEnd
  }

  /** The payload an entry's statement quotes: the pattern, or for a literal
      the text after `=`, stripped. */
  function Payload(e: Entry): string {
    if !StartsWith(e.tok, "!") && StartsWith(e.pattern, "=") then Strip(e.pattern[1..]) else e.pattern
  }

  /** The line one loop iteration of `implement_lexer` appends for an entry. */
  function EntryLine(e: Entry): (r: string)
    ensures StartsWith(r, BuildLexer.Tabby)
    ensures StartsWith(e.tok, "!") ==> StartsWith(r, BuildLexer.Tabby + SkipCall + "\"")
    ensures !StartsWith(e.tok, "!") && StartsWith(e.pattern, "=") ==>
      StartsWith(r, BuildLexer.Tabby + (LiteralCall + e.tok + ", ") + "\"")
    ensures !StartsWith(e.tok, "!") && !StartsWith(e.pattern, "=") ==>
      StartsWith(r, BuildLexer.Tabby + (RegexCall + e.tok + ", ") + "\"")
    ensures EndsWith(r, "\"" + Payload(e) + CallEnd)
  {
    var t := BuildLexer.Tabby;
    if StartsWith(e.tok, "!") then
      Shape(t, SkipCall, e.pattern);
      t + ImplementSkip(e.pattern)
    else if StartsWith(e.pattern, "=") then
      Shape(t, LiteralCall + e.tok + ", ", Strip(e.pattern[1..]));
      t + ImplementLiteral(e.tok, Strip(e.pattern[1..]))
    else
      Shape(t, RegexCall + e.tok + ", ", e.pattern);
      t + ImplementRegex(e.tok, e.pattern)
  }

  /** The shape of a rendered statement: head, quoted payload, `");` and newline. */
  lemma Shape(t: string, head: string, payload: string)
    ensures var line := t + (head + "\"" + payload + CallEnd);
      StartsWith(line, t) && StartsWith(line, t + head + "\"")
      && EndsWith(line, "\"" + payload + CallEnd)
  {
    var line := t + (head + "\"" + payload + CallEnd);
    assert line == (t + head + "\"") + (payload + CallEnd);
    assert line == (t + head) + ("\"" + payload + CallEnd);
    assert line[..|t|] == t;
    assert line[..|t + head + "\""|] == t + head + "\"";
    assert line[|line| - |"\"" + payload + CallEnd|..] == "\"" + payload + CallEnd;
  }

  /** The lines the loop appends, one per entry, in order. */
  function Body(defs: seq<Entry>): string {
    if |defs| == 0 then [] else Body(defs[..|defs| - 1]) + EntryLine(defs[|defs| - 1])
  }

  /** The text `implement_lexer` returns. */
  function LexerText(defs: seq<Entry>): string {
    BuildLexer.LexerStart + Body(defs) + BuildLexer.LexerEnd
  }

  /** One more entry adds its line at the end. */
  lemma BodyStep(defs: seq<Entry>, i: nat)
    requires i < |defs|
    ensures Body(defs[..i + 1]) == Body(defs[..i]) + EntryLine(defs[i])
  {
    assert defs[..i + 1][..i] == defs[..i];
  }

  lemma AppendAssoc(a: string, b: string, c: string)
    ensures a + b + c == a + (b + c)
  {
  }

  /** `implement_lexer`: the loop appending one line per entry to `LEXER_START`. */
  method ImplementLexer(defs: seq<Entry>) returns (retval: string)
    ensures retval == LexerText(defs)
  {
    retval := BuildLexer.LexerStart;
    var i := 0;
    while i < |defs|
      invariant 0 <= i <= |defs|
      invariant retval == BuildLexer.LexerStart + Body(defs[..i])
    {
      var e := defs[i];
      var line: string;
      if StartsWith(e.tok, "!") {
        line := BuildLexer.Tabby + ImplementSkip(e.pattern);
      } else if StartsWith(e.pattern, "=") {
        line := BuildLexer.Tabby + ImplementLiteral(e.tok, Strip(e.pattern[1..]));
      } else {
        line := BuildLexer.Tabby + ImplementRegex(e.tok, e.pattern);
      }
      assert line == EntryLine(defs[i]);
      BodyStep(defs, i);
      AppendAssoc(BuildLexer.LexerStart, Body(defs[..i]), line);
      retval := retval + line;
      i := i + 1;
    }
    assert defs[..i] == defs;
    retval := retval + BuildLexer.LexerEnd;
  }

  /** `make_lexer`: the entries of the block, rendered. */
  method MakeLexer(source: string) returns (r: Result<string, PyError>)
    ensures ExtractLexerDef(source).Err? ==> r == Err(ExtractLexerDef(source).error)
    ensures ExtractLexerDef(source).Ok? ==> r == Ok(LexerText(ExtractLexerDef(source).value))
  {
    var defs := ExtractLexerDef(source);
    if defs.Err? {
      return Err(defs.error);
    }
    var text := ImplementLexer(defs.value);
    return Ok(text);
  }

  // ---------------------------------------------------------------- one line per entry

  /** Counting newlines in a statement: none in the fixed texts, one at the end. */
  lemma StatementCount(t: string, head: string, payload: string)
    requires '\n' !in t && '\n' !in head && '\n' !in payload
    ensures Count(t + (head + "\"" + payload + CallEnd), '\n') == 1
  {
    CountAppend(t, head + "\"" + payload + CallEnd, '\n');
    CountAppend(head + "\"" + payload, CallEnd, '\n');
    CountAppend(head + "\"", payload, '\n');
    CountAppend(head, "\"", '\n');
    assert Count(CallEnd, '\n') == 1;
  }

  lemma CallsHaveNoNewline()
    ensures '\n' !in BuildLexer.Tabby && '\n' !in SkipCall && '\n' !in LiteralCall && '\n' !in RegexCall
  {
    forall i | 0 <= i < |SkipCall| ensures SkipCall[i] != '\n' {
      assert ' ' <= SkipCall[i];
    }
    forall i | 0 <= i < |LiteralCall| ensures LiteralCall[i] != '\n' {
      assert ' ' <= LiteralCall[i];
    }
    forall i | 0 <= i < |RegexCall| ensures RegexCall[i] != '\n' {
      assert ' ' <= RegexCall[i];
    }
  }

  /** An entry without newlines renders as exactly one line. */
  lemma EntryLineCount(e: Entry)
    requires '\n' !in e.tok && '\n' !in e.pattern
    ensures Count(EntryLine(e), '\n') == 1
  {
    CallsHaveNoNewline();
    var t := BuildLexer.Tabby;
    if StartsWith(e.tok, "!") {
      StatementCount(t, SkipCall, e.pattern);
    } else if StartsWith(e.pattern, "=") {
      StripKeepsOut(e.pattern[1..], '\n');
      assert '\n' !in LiteralCall + e.tok + ", ";
      StatementCount(t, LiteralCall + e.tok + ", ", Strip(e.pattern[1..]));
    } else {
      assert '\n' !in RegexCall + e.tok + ", ";
      StatementCount(t, RegexCall + e.tok + ", ", e.pattern);
    }
  }

  /** The emitted body holds exactly one line per entry: one newline each,
      every line ending the statement it opens. */
  lemma {:induction false} OneLinePerEntry(defs: seq<Entry>)
    requires forall k :: 0 <= k < |defs| ==> '\n' !in defs[k].tok && '\n' !in defs[k].pattern
    ensures Count(Body(defs), '\n') == |defs|
    decreases |defs|
  {
    if |defs| > 0 {
      var init := defs[..|defs| - 1];
      assert forall k :: 0 <= k < |init| ==> init[k] == defs[k];
      OneLinePerEntry(init);
      EntryLineCount(defs[|defs| - 1]);
      CountAppend(Body(init), EntryLine(defs[|defs| - 1]), '\n');
    }
  }
}
