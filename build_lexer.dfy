/** The lexer-specification compiler of `lemon_py/BuildLexer.py`: it cuts the
    `@lexdef ... @endlex` block out of a grammar, parses each line into a rule
    (`skip`, `value`, `literal` or `string`), and renders the rules as the C++
    statements of the generated `_init_lexer` function. Regular expressions are
    carried as text and never interpreted. Python exceptions are `Err` results. */
module BuildLexer {
  import opened Wrappers
  import opened PyStr
  import opened PyRe

  datatype CaseFlag = Default | CaseSensitive

  /** A regex as carried to the C++ side: its (escaped) text and its case flag. */
  datatype RegexSpec = RegexSpec(pattern: string, flag: CaseFlag)

  /** One scanned `@lexdef` line, the tuples of the Python code. */
  datatype LexDef =
    | Skip(tok: string, regex: Option<RegexSpec>)
    | Value(tok: string, spec: RegexSpec)
    | Literal(tok: string, text: string, terminator: Option<RegexSpec>)
    | StringDef(tok: string, code: string)

  const LexerStart: string :=
    "\nnamespace _parser_impl {\nvoid _init_lexer() {\n    static bool isInit = false;\n    if (isInit) return;\n    isInit = true;\n\n"
  const LexerEnd: string := "\n} \n} //namespace\n\n"
  const Tabby: string := "      "
  const LiteralWhereRegex: string := "Literal definition (:=) where regex (:/::) expected."
  const NoLexerDefinition: string := "No lexer definition found."

  // ---------------------------------------------------------------- escaping

  /** `escape_backslash(s, extra)`: doubles every `\`, then puts `\` before every `extra`. */
  function EscapeBackslash(s: string, extra: char): (r: string)
    ensures extra != '\\' ==> r == EscapeEach(s, extra)
  {
    EscapeEachIsEscape(s, extra);
    Replace(Replace(s, '\\', "\\\\"), extra, ['\\', extra])
  }

  function EscapeChar(c: char, extra: char): string {
    if c == '\\' then "\\\\" else if c == extra then ['\\', extra] else [c]
  }

  /** Character-by-character form of the two replacements. */
  function EscapeEach(s: string, extra: char): string {
    if |s| == 0 then [] else EscapeChar(s[0], extra) + EscapeEach(s[1..], extra)
  }

  lemma {:induction false} EscapeEachIsEscape(s: string, extra: char)
    ensures extra != '\\' ==> Replace(Replace(s, '\\', "\\\\"), extra, ['\\', extra]) == EscapeEach(s, extra)
  {
    if extra != '\\' && |s| > 0 {
      var head := if s[0] == '\\' then "\\\\" else [s[0]];
      assert Replace(s, '\\', "\\\\") == head + Replace(s[1..], '\\', "\\\\");
      ReplaceAppend(head, Replace(s[1..], '\\', "\\\\"), extra, ['\\', extra]);
      if s[0] == '\\' {
        assert Replace("\\", extra, ['\\', extra]) == "\\";
        ReplaceAppend("\\", "\\", extra, ['\\', extra]);
        assert "\\" + "\\" == "\\\\";
      } else {
        assert Replace([s[0]], extra, ['\\', extra]) == EscapeChar(s[0], extra);
      }
      EscapeEachIsEscape(s[1..], extra);
    }
  }

  /** What a C compiler reads back from an escaped literal: `\\` and `\extra` are one character each. */
  function Unescape(s: string, extra: char): string
    decreases |s|
  {
    if |s| >= 2 && s[0] == '\\' && (s[1] == '\\' || s[1] == extra) then [s[1]] + Unescape(s[2..], extra)
    else if |s| == 0 then []
    else [s[0]] + Unescape(s[1..], extra)
  }

  /** Un-escaping restores the input. */
  lemma {:induction false} UnescapeEscape(s: string, extra: char)
    requires extra != '\\'
    ensures Unescape(EscapeBackslash(s, extra), extra) == s
  {
    UnescapeEach(s, extra);
  }

  lemma {:induction false} UnescapeEach(s: string, extra: char)
    requires extra != '\\'
    ensures Unescape(EscapeEach(s, extra), extra) == s
  {
    if |s| > 0 {
      var e := EscapeEach(s, extra);
      var rest := EscapeEach(s[1..], extra);
      assert e == EscapeChar(s[0], extra) + rest;
      if s[0] == '\\' || s[0] == extra {
        assert e[2..] == rest;
      } else {
        assert e[1..] == rest;
      }
      UnescapeEach(s[1..], extra);
    }
  }

  /** The escaped text is longer by one for every `\` and every `extra`. */
  lemma {:induction false} EscapeLength(s: string, extra: char)
    requires extra != '\\'
    ensures |EscapeBackslash(s, extra)| == |s| + Count(s, '\\') + Count(s, extra)
  {
    EscapeEachLength(s, extra);
  }

  lemma {:induction false} EscapeEachLength(s: string, extra: char)
    requires extra != '\\'
    ensures |EscapeEach(s, extra)| == |s| + Count(s, '\\') + Count(s, extra)
  {
    if |s| > 0 {
      EscapeEachLength(s[1..], extra);
    }
  }

  /** Every `extra` of the escaped text is preceded by an odd run of `\`, so it cannot end a C literal. */
  lemma {:induction false} EscapedHasNoBareExtra(s: string, extra: char)
    requires extra != '\\'
    ensures NoBare(EscapeBackslash(s, extra), extra)
  {
    EachNoBare(s, extra);
  }

  /** No `extra` outside of a `\`-pair: the text stays inside its quotes. */
  predicate NoBare(s: string, extra: char)
    decreases |s|
  {
    if |s| == 0 then true
    else if s[0] == '\\' then |s| >= 2 && NoBare(s[2..], extra)
    else s[0] != extra && NoBare(s[1..], extra)
  }

  lemma {:induction false} EachNoBare(s: string, extra: char)
    requires extra != '\\'
    ensures NoBare(EscapeEach(s, extra), extra)
  {
    if |s| > 0 {
      var e := EscapeEach(s, extra);
      var rest := EscapeEach(s[1..], extra);
      assert e == EscapeChar(s[0], extra) + rest;
      if s[0] == '\\' || s[0] == extra {
        assert e[2..] == rest;
      } else {
        assert e[1..] == rest;
      }
      EachNoBare(s[1..], extra);
    }
  }

  // ---------------------------------------------------------------- scanning

  /** `scan_regex`: the regex part of a `:` / `::` rule, without the first colon. */
  function ScanRegex(s: string): (r: Result<Option<RegexSpec>, PyError>)
    ensures r == Ok(None) <==> |s| <= 1
    ensures r.Err? <==> |s| >= 2 && s[0] == '='
    ensures r.Err? ==> r.error == RuntimeError(LiteralWhereRegex)
    ensures r.Ok? && r.value.Some? ==>
      (r.value.value.flag == CaseSensitive <==> s[0] == ':')
      && Unescape(r.value.value.pattern, '"') == Strip(if s[0] == ':' then s[1..] else s)
  {
    if |s| <= 1 then Ok(None)
    else if s[0] == '=' then Err(RuntimeError(LiteralWhereRegex))
    else
      var flag := if s[0] == ':' then CaseSensitive else Default;
      var body := if s[0] == ':' then s[1..] else s;
      UnescapeEscape(Strip(body), '"');
      Ok(Some(RegexSpec(EscapeBackslash(Strip(body), '"'), flag)))
  }

  /** `scan_literal`: the literal after `=` and its optional terminator regex. It never raises. */
  function ScanLiteral(s: string): (r: Result<Option<(string, Option<RegexSpec>)>, PyError>)
    ensures r.Ok?
    ensures r.value.None? <==> |s| <= 1
    ensures r.value.Some? && Search(s, IntroColon).None? ==>
      Unescape(r.value.value.0, '"') == Strip(s[1..]) && r.value.value.1.None?
    ensures r.value.Some? && Search(s, IntroColon).Some? ==>
      var q := Search(s, IntroColon).value.1;
      Unescape(r.value.value.0, '"') == Strip(s[1..q]) && Ok(r.value.value.1) == ScanRegex(s[q + 1..])
  {
    if |s| <= 1 then Ok(None)
    else
      var m := Search(s, IntroColon);
      if m.None? then
        UnescapeEscape(Strip(s[1..]), '"');
        Ok(Some((EscapeBackslash(Strip(s[1..]), '"'), None)))
      else
        IntroColonTail(s, m.value.0, m.value.1);
        Ok(Some(LiteralBefore(s, m.value.1)))
  }

  /** The literal `s[1..q]` and the terminator after the colon at `q`. */
  function LiteralBefore(s: string, q: nat): (r: (string, Option<RegexSpec>))
    requires 1 <= q && q + 1 < |s| && s[q + 1..][0] != '='
    ensures Unescape(r.0, '"') == Strip(s[1..q]) && Ok(r.1) == ScanRegex(s[q + 1..])
  {
    var lit := Strip(s[1..q]);
    UnescapeEscape(lit, '"');
    (EscapeBackslash(lit, '"'), ScanRegex(s[q + 1..]).value)
  }

  /** After the colon of a `\s+(:)[:]?\s+` match comes a space or a second colon, never `=`. */
  lemma IntroColonTail(s: string, p: nat, q: nat)
    requires MatchAt(s, IntroColon, p, q)
    ensures 1 <= q && q + 1 < |s| && s[q + 1..][0] != '='
  {
    assert s[q + 1..][0] == s[q + 1];
  }

  /** `scan_lex_line`: one `@lexdef` line as a rule, nothing (blank or nameless) or an exception. */
  function ScanLexLine(line: string): (r: Result<Option<LexDef>, PyError>)
    ensures r.Err? ==> r.error == IndexError || r.error == TypeError || r.error == RuntimeError(LiteralWhereRegex)
    ensures |Strip(line)| == 0 ==> r == Ok(None)
    ensures r.Ok? && r.value.Some? ==> |Strip(line)| > 0
    ensures r.Ok? && r.value.Some? ==> (r.value.value.Skip? <==> Strip(line)[0] == '!')
    ensures r.Ok? && r.value.Some? ==> (r.value.value.StringDef? <==> Strip(line)[0] == '\'')
    ensures r.Ok? && r.value.Some? && (r.value.value.Value? || r.value.value.Literal?) ==>
      |r.value.value.tok| > 0 && Stripped(r.value.value.tok) && ':' !in r.value.value.tok
  {
    var l := Strip(line);
    if |l| == 0 then Ok(None)
    else if l[0] == '!' then ScanSkipLine(l)
    else if l[0] == '\'' then ScanStringLine(l)
    else ScanTokenLine(l)
  }

  /** A `!name : regex` line: split at the first whitespace run followed by `:`. */
  function ScanSkipLine(l: string): (r: Result<Option<LexDef>, PyError>)
    ensures r.Err? ==> r.error == IndexError || r.error == RuntimeError(LiteralWhereRegex)
    ensures r.Ok? ==> r.value.Some? && r.value.value.Skip?
  {
    match SplitSpaceColon(l)
    case Whole => Err(IndexError)
    case Split(before, after) =>
      var re :- ScanRegex(after);
      Ok(Some(Skip(Strip(Tail(before)), re)))
  }

  /** A `'code := TOK` line: split at the last `:=`, the token after it. */
  function ScanStringLine(l: string): (r: Result<Option<LexDef>, PyError>)
    ensures r.Err? ==> r.error == IndexError
    ensures r.Ok? ==> r.value.Some? && r.value.value.StringDef?
  {
    match RSplit1(l, ":=")
    case Whole => Err(IndexError)
    case Split(before, after) => Ok(Some(StringDef(Strip(after), Strip(Tail(before)))))
  }

  /** A `TOK :...` line: the token is the stripped text before the first `:`. */
  function ScanTokenLine(l: string): (r: Result<Option<LexDef>, PyError>)
    requires |l| > 0
    ensures r.Err? ==> r.error == IndexError || r.error == TypeError
    ensures r.Ok? && r.value.Some? ==> ((r.value.value.Value? || r.value.value.Literal?)
      && |r.value.value.tok| > 0 && Stripped(r.value.value.tok) && ':' !in r.value.value.tok)
  {
    var split := Find(l, ":");
    var tok := Strip(Slice(l, 0, split));
    assert ':' !in tok by { TokenHasNoColon(l, split); }
    if |tok| == 0 then Ok(None)
    else if split + 1 >= |l| then Err(IndexError)
    else ScanRule(tok, l[split + 1..])
  }

  /** The rule after the token's colon: a literal when `=` follows the colon, otherwise a value regex. */
  function ScanRule(tok: string, rest: string): (r: Result<Option<LexDef>, PyError>)
    requires |rest| > 0
    ensures r.Err? ==> r.error == TypeError
    ensures r.Ok? ==> r.value.Some? && r.value.value.tok == tok
    ensures r.Ok? ==> (r.value.value.Literal? <==> rest[0] == '=')
  {
    if rest[0] == '=' then
      var lit := ScanLiteral(rest).value;
      if lit.None? then Err(TypeError) else Ok(Some(Literal(tok, lit.value.0, lit.value.1)))
    else
      var re := ScanRegex(rest).value;
      if re.None? then Err(TypeError) else Ok(Some(Value(tok, re.value)))
  }

  /** The text before the first `:` contains no `:`, and neither does the line minus its last character when there is none. */
  lemma TokenHasNoColon(l: string, split: int)
    requires |l| > 0 && split == Find(l, ":")
    ensures ':' !in Strip(Slice(l, 0, split))
  {
    var head := Slice(l, 0, split);
    assert forall k :: 0 <= k < |head| ==> head[k] != ':' by {
      forall k | 0 <= k < |head| ensures head[k] != ':' {
        assert head[k] == l[k];
        assert !OccursAt(l, ":", k);
        assert l[k..k + 1][0] == l[k];
      }
    }
    var t := Strip(head);
    var ls := LStrip(head);
    assert forall k :: 0 <= k < |t| ==> t[k] == head[|head| - |ls| + k];
  }

  /** The Python pipeline `list(filter(None-test, map(f, xs)))` once `f` has been
      applied: the first exception in order, or the non-`None` values in order. */
  function Collect<T>(rs: seq<Result<Option<T>, PyError>>): (r: Result<seq<T>, PyError>)
    ensures r.Ok? <==> NoneRaised(rs)
    ensures r.Ok? ==> r.value == Present(rs) && |r.value| <= |rs|
    ensures r.Err? ==> exists k :: (0 <= k < |rs| && rs[k].Err? && r.error == rs[k].error
      && forall j :: 0 <= j < k ==> rs[j].Ok?)
  {
    if |rs| == 0 then Ok([])
    else if rs[0].Err? then Err(rs[0].error)
    else
      var rest := Collect(rs[1..]);
      assert forall k :: 1 <= k < |rs| ==> rs[k] == rs[1..][k - 1];
      if rest.Err? then rest
      else Ok((if rs[0].value.Some? then [rs[0].value.value] else []) + rest.value)
  }

  /** No result is an exception. */
  predicate NoneRaised<T>(rs: seq<Result<Option<T>, PyError>>) {
    forall k :: 0 <= k < |rs| ==> rs[k].Ok?
  }

  /** The present values of successful results, in order. */
  function Present<T>(rs: seq<Result<Option<T>, PyError>>): (r: seq<T>)
    requires NoneRaised(rs)
    ensures |r| <= |rs|
    ensures forall k :: 0 <= k < |rs| && rs[k].value.Some? ==> rs[k].value.value in r
    ensures forall x :: x in r ==> exists k :: 0 <= k < |rs| && rs[k].value == Some(x)
  {
    if |rs| == 0 then []
    else
      var rest := Present(rs[1..]);
      assert forall k :: 1 <= k < |rs| ==> rs[k] == rs[1..][k - 1];
      (if rs[0].value.Some? then [rs[0].value.value] else []) + rest
  }

  /** The exceptions a line scan can raise. */
  predicate LineError(e: PyError) {
    e == IndexError || e == TypeError || e == RuntimeError(LiteralWhereRegex)
  }

  /** Python's `map(f, xs)`, consumed in order. */
  function Map<A, B>(xs: seq<A>, f: A -> B): (r: seq<B>)
    ensures |r| == |xs| && forall k :: 0 <= k < |xs| ==> r[k] == f(xs[k])
  {
    if |xs| == 0 then [] else [f(xs[0])] + Map(xs[1..], f)
  }

  /** Mapping splits over concatenation. */
  lemma {:induction false} MapConcat<A, B>(a: seq<A>, b: seq<A>, f: A -> B)
    ensures Map(a + b, f) == Map(a, f) + Map(b, f)
  {
    if |a| == 0 {
      assert a + b == b;
    } else {
      assert (a + b)[0] == a[0] && (a + b)[1..] == a[1..] + b;
      MapConcat(a[1..], b, f);
    }
  }

  /** `map(scan_lex_line, lines)`. */
  function ScanEach(lines: seq<string>): (r: seq<Result<Option<LexDef>, PyError>>) {
    Map(lines, ScanLexLine)
  }

  /** Present values keep their order: those of `a` come before those of `b`. */
  lemma {:induction false} PresentConcat<T>(a: seq<Result<Option<T>, PyError>>, b: seq<Result<Option<T>, PyError>>)
    requires NoneRaised(a) && NoneRaised(b)
    ensures NoneRaised(a + b)
    ensures Present(a + b) == Present(a) + Present(b)
    decreases |a|
  {
    if |a| > 0 {
      assert (a + b)[0] == a[0];
      assert (a + b)[1..] == a[1..] + b;
      PresentConcat(a[1..], b);
    } else {
      assert a + b == b;
    }
  }

  /** A single result contributes its value when present and nothing otherwise. */
  lemma PresentOne<T>(x: Option<T>)
    ensures Present<T>([Ok(x)]) == (if x.Some? then [x.value] else [])
  {
    var rs: seq<Result<Option<T>, PyError>> := [Ok(x)];
    assert rs[1..] == [];
  }

  /** Collecting two runs of results: the first run's exception, else the
      second's, else the first run's values followed by the second's. */
  lemma {:induction false} CollectConcat<T>(a: seq<Result<Option<T>, PyError>>, b: seq<Result<Option<T>, PyError>>)
    ensures Collect(a + b) ==
      if Collect(a).Err? then Collect(a)
      else if Collect(b).Err? then Collect(b)
      else Ok(Collect(a).value + Collect(b).value)
    decreases |a|
  {
    if |a| == 0 {
      assert a + b == b;
      assert Collect(a) == Ok([]);
      if Collect(b).Ok? {
        assert [] + Collect(b).value == Collect(b).value;
      }
    } else {
      assert (a + b)[0] == a[0] && (a + b)[1..] == a[1..] + b;
      CollectConcat(a[1..], b);
      if a[0].Ok? && Collect(a[1..]).Ok? && Collect(b).Ok? {
        var head := if a[0].value.Some? then [a[0].value.value] else [];
        assert head + (Collect(a[1..]).value + Collect(b).value) == (head + Collect(a[1..]).value) + Collect(b).value;
      }
    }
  }

  /** A single result: its exception, or its value when present. */
  lemma CollectOne<T>(x: Result<Option<T>, PyError>)
    ensures Collect([x]) == match x
      case Err(e) => Err(e)
      case Ok(d) => Ok(if d.Some? then [d.value] else [])
  {
    var rs := [x];
    assert rs[0] == x && rs[1..] == [];
    assert Collect(rs[1..]) == Ok([]);
    if x.Ok? {
      var head := if x.value.Some? then [x.value.value] else [];
      assert head + [] == head;
    }
  }

  /** Scans every line in order, keeping the rules and stopping at the first exception. */
  function ScanLines(lines: seq<string>): (r: Result<seq<LexDef>, PyError>)
    ensures r.Ok? ==> NoneRaised(ScanEach(lines)) && r.value == Present(ScanEach(lines))
    ensures r.Err? ==> LineError(r.error)
  {
    Collect(ScanEach(lines))
  }

  /** Scanning two blocks of lines: the first block's exception, else the
      second's, else the first block's rules followed by the second's. */
  lemma ScanLinesConcat(a: seq<string>, b: seq<string>)
    ensures ScanLines(a + b) ==
      if ScanLines(a).Err? then ScanLines(a)
      else if ScanLines(b).Err? then ScanLines(b)
      else Ok(ScanLines(a).value + ScanLines(b).value)
  {
    MapConcat(a, b, ScanLexLine);
    CollectConcat(ScanEach(a), ScanEach(b));
  }

  /** One line gives its rule, nothing when the rule is falsy, or its exception. */
  lemma ScanLinesOne(line: string)
    ensures ScanLines([line]) ==
      match ScanLexLine(line)
      case Err(e) => Err(e)
      case Ok(d) => Ok(if d.Some? then [d.value] else [])
  {
    assert ScanEach([line]) == [ScanLexLine(line)];
    CollectOne(ScanLexLine(line));
  }

  /** `scan_lexer_def`: the rules of the lines after the `@lexdef` line, up to `@endlex`. */
  function ScanLexerDef(source: string): (r: Result<seq<LexDef>, PyError>)
    ensures Find(source, "@lexdef") < 0 <==> r == Err(RuntimeError(NoLexerDefinition))
    ensures r.Err? ==> (r.error == RuntimeError(NoLexerDefinition) || r.error == IndexError
                        || r.error == TypeError || r.error == RuntimeError(LiteralWhereRegex))
    ensures r.Ok? ==> var start := Find(source, "@lexdef");
      var raw := SplitLines(Slice(source, start, FindFrom(source, "@endlex", start)));
      var lines := if |raw| == 0 then [] else raw[1..];
      NoneRaised(ScanEach(lines)) && r.value == Present(ScanEach(lines))
  {
    var start := Find(source, "@lexdef");
    if start < 0 then Err(RuntimeError(NoLexerDefinition))
    else
      var end := FindFrom(source, "@endlex", start);
      var raw := SplitLines(Slice(source, start, end));
      assert NoLexerDefinition != LiteralWhereRegex;
      ScanLines(if |raw| == 0 then [] else raw[1..])
  }

  // ---------------------------------------------------------------- emission

  /** `cstring`: a C string literal, wide (`L"..."`) when `uni`. */
  function CString(s: string, uni: bool): string {
    if uni then "L\"" + s + "\"" else "\"" + s + "\""
  }

  /** A C string literal is the text in double quotes, with `L` in front exactly when wide. */
  lemma CStringQuotes(s: string, uni: bool)
    ensures var r := CString(s, uni);
      && |r| == |s| + (if uni then 3 else 2)
      && (r[0] == 'L' <==> uni)
      && r[|r| - |s| - 2] == '"' && r[|r| - 1] == '"' && r[|r| - |s| - 1..|r| - 1] == s
  {
    var q := "\"" + s + "\"";
    assert q[1..|q| - 1] == s;
    if uni {
      assert ("L" + q)[1..] == q;
    }
  }

  function FlagName(f: CaseFlag): string {
    match f
    case Default => "RegexScannerFlags::Default"
    case CaseSensitive => "RegexScannerFlags::CaseSensitive"
  }

  /** How a string token is scanned: the decoded meaning of a packed string-definition code. */
  datatype StringSpec = StringSpec(delim: char, escape: char, spanNewlines: bool, joinAdjacent: bool)

  /** The packed code without whitespace: delimiter, escape character, then option letters
      (`!` or `s`: strings may span newlines, `j`: adjacent strings are joined). */
  function PackedSpec(c: string): StringSpec
    requires |c| >= 2
  {
    StringSpec(c[0], c[1], '!' in c[2..] || 's' in c[2..], 'j' in c[2..])
  }

  /** The meaning of a string-definition code, which raises when it has fewer than two characters. */
  function DecodeStringSpec(code: string): (r: Result<StringSpec, PyError>)
    ensures r.Err? <==> |RemoveSpace(code)| < 2
    ensures r.Err? ==> r.error == IndexError
    ensures r.Ok? ==> var c := RemoveSpace(code);
      r.value.delim == c[0] && r.value.escape == c[1]
      && (r.value.spanNewlines <==> '!' in c[2..] || 's' in c[2..])
      && (r.value.joinAdjacent <==> 'j' in c[2..])
  {
    var c := RemoveSpace(code);
    if |c| < 2 then Err(IndexError) else Ok(PackedSpec(c))
  }

  /** Whitespace anywhere in the code is insignificant. */
  lemma WhitespaceIgnored(code: string)
    ensures DecodeStringSpec(code) == DecodeStringSpec(RemoveSpace(code))
  {
  }

  /** Letters other than `!`, `s` and `j` do not change the decoded meaning. */
  lemma OtherLettersIgnored(code: string, c: char)
    requires |RemoveSpace(code)| >= 2 && c != '!' && c != 's' && c != 'j'
    ensures DecodeStringSpec(code + [c]) == DecodeStringSpec(code)
  {
    RemoveSpaceAppend(code, [c]);
    RemoveSpaceOne(c);
    var a := RemoveSpace(code);
    if !IsSpace(c) {
      PackedIgnores(a, c);
    } else {
      assert a + [] == a;
    }
  }

  lemma RemoveSpaceOne(c: char)
    ensures RemoveSpace([c]) == if IsSpace(c) then [] else [c]
  {
    assert [c][1..] == [];
  }

  lemma PackedIgnores(a: string, c: char)
    requires |a| >= 2 && c != '!' && c != 's' && c != 'j'
    ensures PackedSpec(a + [c]) == PackedSpec(a)
  {
    assert (a + [c])[2..] == a[2..] + [c];
  }

  lemma {:induction false} RemoveSpaceAppend(a: string, b: string)
    ensures RemoveSpace(a + b) == RemoveSpace(a) + RemoveSpace(b)
  {
    if |a| == 0 {
      assert a + b == b;
    } else {
      assert (a + b)[1..] == a[1..] + b;
      RemoveSpaceAppend(a[1..], b);
    }
  }

  /** A C character literal body: `'` and `\` escaped. */
  function CharLiteral(c: char): (r: string)
    ensures Unescape(r, '\'') == [c]
    ensures NoBare(r, '\'')
  {
    UnescapeEscape([c], '\'');
    EscapedHasNoBareExtra([c], '\'');
    EscapeBackslash([c], '\'')
  }

  function StringFlags(spec: StringSpec): string {
    "StringScannerFlags::Default"
    + (if spec.spanNewlines then " | StringScannerFlags::SpanNewlines" else "")
    + (if spec.joinAdjacent then " | StringScannerFlags::JoinAdjacent" else "")
  }

  /** `decode_stringdef`: the `add_string_def` call for a string token. */
  function DecodeStringdef(tok: string, code: string): (r: Result<string, PyError>)
    ensures r.Err? <==> |RemoveSpace(code)| < 2
    ensures r.Ok? ==> var spec := DecodeStringSpec(code).value;
      r.value == "Lexer::add_string_def('" + CharLiteral(spec.delim) + "', '" + CharLiteral(spec.escape)
        + "', " + tok + ", " + StringFlags(spec) + ");\n"
  {
    var spec :- DecodeStringSpec(code);
    Ok("Lexer::add_string_def('" + CharLiteral(spec.delim) + "', '" + CharLiteral(spec.escape)
       + "', " + tok + ", " + StringFlags(spec) + ");\n")
  }

  /** The `token_name_map` entry every non-skip rule adds. */
  function NameEntry(tok: string, uni: bool): string {
    Tabby + "token_name_map.emplace(" + tok + ", " + CString(tok, uni) + ");\n"
  }

  /** The registration call of one rule, without indentation, or the exception raised building it. */
  function RuleCall(d: LexDef, uni: bool): (r: Result<string, PyError>)
    ensures r.Err? <==> (d.Skip? && d.regex.None?) || (d.StringDef? && |RemoveSpace(d.code)| < 2)
  {
    match d
    case Skip(_, None) => Err(TypeError)
    case Skip(_, Some(re)) =>
      Ok("Lexer::add_skip(" + CString(re.pattern, uni) + ", " + FlagName(re.flag) + ");\n")
    case Value(tok, re) =>
      Ok("Lexer::add_value_type(" + tok + ", " + CString(re.pattern, uni) + ", " + FlagName(re.flag) + ");\n")
    case Literal(tok, text, None) =>
      Ok("Lexer::add_literal(" + tok + ", " + CString(text, uni) + ");\n")
    case Literal(tok, text, Some(t)) =>
      Ok("Lexer::add_literal(" + tok + ", " + CString(text, uni) + ", " + CString(t.pattern, uni) + ", "
         + FlagName(t.flag) + ");\n")
    case StringDef(tok, code) => DecodeStringdef(tok, code)
  }

  /** `implement_lexdef_line`: the indented call, plus a name entry for every kind except `skip`. */
  function ImplementLexdefLine(d: LexDef, uni: bool): (r: Result<string, PyError>)
    ensures r.Err? <==> RuleCall(d, uni).Err?
    ensures r.Ok? ==> StartsWith(r.value, Tabby + RuleCall(d, uni).value)
    ensures r.Ok? ==> (EndsWith(r.value, NameEntry(d.tok, uni)) <==> !d.Skip?)
  {
    var call :- RuleCall(d, uni);
    var out := Tabby + call + (if d.Skip? then "" else NameEntry(d.tok, uni));
    assert StartsWith(out, Tabby + call) by { assert out[..|Tabby + call|] == Tabby + call; }
    if d.Skip? then
      SkipHasNoNameEntry(d, uni, out);
      Ok(out)
    else
      assert out[|out| - |NameEntry(d.tok, uni)|..] == NameEntry(d.tok, uni);
      Ok(out)
  }

  lemma SkipHasNoNameEntry(d: LexDef, uni: bool, out: string)
    requires d.Skip? && d.regex.Some?
    requires out == Tabby + RuleCall(d, uni).value + ""
    ensures !EndsWith(out, NameEntry(d.tok, uni))
  {
    var f := FlagName(d.regex.value.flag);
    var pre := Tabby + "Lexer::add_skip(" + CString(d.regex.value.pattern, uni) + ", ";
    SkipCallShape(d, uni, out, f, pre);
    var pre2 := Tabby + "token_name_map.emplace(" + d.tok + ", " + (if uni then "L\"" else "\"") + d.tok;
    NameEntryShape(d.tok, uni, pre2);
    FlagNameLast(d.regex.value.flag);
    NoSuffix(pre, f, pre2, ");\n");
  }

  lemma SkipCallShape(d: LexDef, uni: bool, out: string, f: string, pre: string)
    requires d.Skip? && d.regex.Some? && out == Tabby + RuleCall(d, uni).value + ""
    requires f == FlagName(d.regex.value.flag)
    requires pre == Tabby + "Lexer::add_skip(" + CString(d.regex.value.pattern, uni) + ", "
    ensures out == pre + f + ");\n"
  {
  }

  lemma NameEntryShape(tok: string, uni: bool, pre2: string)
    requires pre2 == Tabby + "token_name_map.emplace(" + tok + ", " + (if uni then "L\"" else "\"") + tok
    ensures NameEntry(tok, uni) == pre2 + "\"" + ");\n"
  {
  }

  lemma FlagNameLast(fl: CaseFlag)
    ensures var f := FlagName(fl); |f| > 0 && f[|f| - 1] != '"'
  {
  }

  /** A call ending in a flag name never ends like a name entry, whose last argument is a string literal. */
  lemma NoSuffix(pre: string, f: string, pre2: string, suffix: string)
    requires |f| > 0 && f[|f| - 1] != '"'
    ensures !EndsWith(pre + f + suffix, pre2 + "\"" + suffix)
  {
    var x := f[|f| - 1];
    assert pre + f + suffix == (pre + f[..|f| - 1]) + ([x] + suffix) by {
      assert f == f[..|f| - 1] + [x];
    }
    EndsWithConcat(pre + f[..|f| - 1], [x] + suffix);
    assert pre2 + "\"" + suffix == pre2 + ("\"" + suffix);
    EndsWithConcat(pre2, "\"" + suffix);
    DistinctBeforeSuffix(pre + f + suffix, x, pre2 + "\"" + suffix, '"', suffix);
  }

  /** Renders every rule in order, stopping at the first exception. */
  function ImplementAll(defs: seq<LexDef>, uni: bool): (r: Result<seq<string>, PyError>)
    ensures r.Ok? <==> forall k :: 0 <= k < |defs| ==> ImplementLexdefLine(defs[k], uni).Ok?
    ensures r.Ok? ==> (|r.value| == |defs|
      && forall k :: 0 <= k < |defs| ==> r.value[k] == ImplementLexdefLine(defs[k], uni).value)
    ensures r.Err? ==> exists k :: (0 <= k < |defs| && ImplementLexdefLine(defs[k], uni).Err?
      && r.error == ImplementLexdefLine(defs[k], uni).error
      && forall j :: 0 <= j < k ==> ImplementLexdefLine(defs[j], uni).Ok?)
  {
    MapAll(defs, d => ImplementLexdefLine(d, uni))
  }

  /** `make_lexer`: the `_init_lexer` body, one rendered rule per scanned rule joined by newlines. */
  function MakeLexer(source: string, uni: bool): (r: Result<string, PyError>)
    ensures ScanLexerDef(source).Err? ==> r == Err(ScanLexerDef(source).error)
    ensures ScanLexerDef(source).Ok? ==>
      var defs := ScanLexerDef(source).value;
      (r.Ok? <==> forall k :: 0 <= k < |defs| ==> ImplementLexdefLine(defs[k], uni).Ok?)
      && (r.Ok? ==> r.value == LexerStart + JoinWith(ImplementAll(defs, uni).value, "\n") + LexerEnd)
    ensures r.Ok? ==> StartsWith(r.value, LexerStart) && EndsWith(r.value, LexerEnd)
  {
    var defs :- ScanLexerDef(source);
    LexerBody(defs, uni)
  }

  /** The `_init_lexer` body for scanned rules. */
  function LexerBody(defs: seq<LexDef>, uni: bool): (r: Result<string, PyError>)
    ensures r.Ok? <==> forall k :: 0 <= k < |defs| ==> ImplementLexdefLine(defs[k], uni).Ok?
    ensures r.Ok? ==> r.value == LexerStart + JoinWith(ImplementAll(defs, uni).value, "\n") + LexerEnd
    ensures r.Ok? ==> StartsWith(r.value, LexerStart) && EndsWith(r.value, LexerEnd)
  {
    var lines :- ImplementAll(defs, uni);
    var out := LexerStart + JoinWith(lines, "\n") + LexerEnd;
    Framed(LexerStart, JoinWith(lines, "\n"), LexerEnd, out);
    Ok(out)
  }
}
