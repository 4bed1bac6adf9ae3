/** The `@lexdef` line formats read back: for each kind of rule, the line a
    grammar author writes is scanned into the rule it denotes, with its text
    escaped so that the C++ literal reads back as the text written. Also the
    malformed lines that raise, and the block around the lines. */
module LexDefLines {
  import opened Wrappers
  import opened PyStr
  import opened PyRe
  import opened BuildLexer

  /** A token name as grammars write it: non-empty, no whitespace, no `:`,
      not starting with the skip or string markers. */
  predicate PlainName(tok: string) {
    |tok| > 0 && NoSpace(tok) && ':' !in tok && tok[0] != '!' && tok[0] != '\''
  }

  lemma NoSpaceStripped(t: string)
    requires NoSpace(t)
    ensures Stripped(t)
  {
  }

  /** The token before the first colon of `tok + p + rest`, `p` whitespace, is `tok`. */
  lemma TokenPart(tok: string, p: string, rest: string, l: string)
    requires PlainName(tok) && AllSpace(p) && |rest| > 0 && rest[0] == ':' && l == tok + p + rest
    ensures Find(l, ":") == |tok| + |p|
    ensures Strip(Slice(l, 0, |tok| + |p|)) == tok
    ensures l[|tok| + |p| + 1..] == rest[1..]
  {
    var h := l[..|tok| + |p|];
    assert h == tok + p;
    assert l[|tok| + |p| + 1..] == rest[1..];
    assert Find(l, ":") == |tok| + |p| by {
      assert ':' !in h by {
        forall k | 0 <= k < |h| ensures h[k] != ':' {
          if k < |tok| { assert h[k] == tok[k]; } else { assert h[k] == p[k - |tok|]; }
        }
      }
      FindFirstChar(l, ':', |tok| + |p|);
    }
    assert Strip(h) == tok by {
      assert [] + tok + p == tok + p;
      StripPadded([], tok, p);
    }
  }

  /** A stripped line is dispatched on its first character. */
  lemma Dispatch(l: string)
    requires |l| > 0 && Stripped(l)
    ensures ScanLexLine(l) == (if l[0] == '!' then ScanSkipLine(l)
                               else if l[0] == '\'' then ScanStringLine(l)
                               else ScanTokenLine(l))
  {
    StrippedFixed(l);
  }

  /** A stripped line with a named token before its first colon is scanned as the rule after that colon. */
  lemma TokenRule(tok: string, l: string, split: nat)
    requires |l| > 0 && Stripped(l) && l[0] != '!' && l[0] != '\''
    requires Find(l, ":") == split && Strip(Slice(l, 0, split)) == tok && |tok| > 0 && split + 1 < |l|
    ensures ScanLexLine(l) == ScanRule(tok, l[split + 1..])
  {
    Dispatch(l);
  }

  /** A stripped plain-token line `tok + p + rest` is scanned as the rule after its first colon. */
  lemma TokenLine(tok: string, p: string, rest: string, l: string)
    requires PlainName(tok) && AllSpace(p) && |rest| >= 2 && rest[0] == ':' && l == tok + p + rest && Stripped(l)
    ensures ScanLexLine(l) == ScanRule(tok, rest[1..])
  {
    var split := |tok| + |p|;
    assert l[0] == tok[0];
    assert Find(l, ":") == split && Strip(Slice(l, 0, split)) == tok && l[split + 1..] == rest[1..] by {
      TokenPart(tok, p, rest, l);
    }
    TokenRule(tok, l, split);
  }

  /** `" " + pat` strips to `pat`. */
  lemma SpacedStrip(pat: string)
    requires Stripped(pat)
    ensures Strip(" " + pat) == pat
  {
    StripPadded(" ", pat, []);
    assert " " + pat + [] == " " + pat;
  }

  /** A regex text `" " + pat` or `": " + pat` reads as `pat`, escaped, with the flag its colon gives. */
  lemma RegexText(pat: string, caseSensitive: bool, r: string)
    requires |pat| > 0 && Stripped(pat)
    requires r == (if caseSensitive then ": " else " ") + pat
    ensures ScanRegex(r) == Ok(Some(RegexSpec(EscapeBackslash(pat, '"'), if caseSensitive then CaseSensitive else Default)))
  {
    var body := if caseSensitive then r[1..] else r;
    assert r[0] == (if caseSensitive then ':' else ' ') && |r| >= 2;
    assert body == " " + pat;
    assert Strip(body) == pat by { SpacedStrip(pat); }
  }

  /** A rule text not starting with `=` whose regex reads as `re` is a value rule. */
  lemma RegexRule(tok: string, r: string, re: RegexSpec)
    requires |r| > 0 && r[0] != '=' && ScanRegex(r) == Ok(Some(re))
    ensures ScanRule(tok, r) == Ok(Some(Value(tok, re)))
  {
  }

  /** The rule text of a value line: ` regex` or `: regex`. */
  lemma ValueRule(tok: string, pat: string, caseSensitive: bool, r: string)
    requires |pat| > 0 && Stripped(pat)
    requires r == (if caseSensitive then ": " else " ") + pat
    ensures ScanRule(tok, r)
      == Ok(Some(Value(tok, RegexSpec(EscapeBackslash(pat, '"'), if caseSensitive then CaseSensitive else Default))))
  {
    RegexText(pat, caseSensitive, r);
    RegexRule(tok, r, RegexSpec(EscapeBackslash(pat, '"'), if caseSensitive then CaseSensitive else Default));
  }

  /** `TOK : regex` and `TOK :: regex` are value rules with the Default and CaseSensitive flags. */
  lemma ValueLine(tok: string, pat: string, caseSensitive: bool)
    requires PlainName(tok) && |pat| > 0 && Stripped(pat)
    ensures var sep := if caseSensitive then " :: " else " : ";
      var flag := if caseSensitive then CaseSensitive else Default;
      ScanLexLine(tok + sep + pat) == Ok(Some(Value(tok, RegexSpec(EscapeBackslash(pat, '"'), flag))))
  {
    var sep := if caseSensitive then " :: " else " : ";
    var rest := sep[1..] + pat;
    ValueLineShape(tok, pat, caseSensitive, sep, rest);
    ValueRule(tok, pat, caseSensitive, rest[1..]);
    TokenLine(tok, " ", rest, tok + sep + pat);
  }

  /** `tok + sep + pat` is the token, a space and the rule text `sep[1..] + pat`. */
  lemma ValueLineShape(tok: string, pat: string, caseSensitive: bool, sep: string, rest: string)
    requires PlainName(tok) && |pat| > 0 && Stripped(pat)
    requires sep == (if caseSensitive then " :: " else " : ") && rest == sep[1..] + pat
    ensures tok + sep + pat == tok + " " + rest && Stripped(tok + sep + pat)
    ensures rest[1..] == (if caseSensitive then ": " else " ") + pat
  {
    var l := tok + sep + pat;
    assert l[0] == tok[0] && l[|l| - 1] == pat[|pat| - 1];
  }

  /** A literal rule text in which the separator search finds nothing: all of it after `=` is the literal. */
  lemma LiteralWithoutTerminator(tok: string, s: string, lit: string)
    requires |s| >= 2 && s[0] == '=' && Search(s, IntroColon).None? && Strip(s[1..]) == lit
    ensures ScanRule(tok, s) == Ok(Some(Literal(tok, EscapeBackslash(lit, '"'), None)))
  {
  }

  /** The rule text of a terminator-less literal line: `= text`. */
  lemma LiteralRule(tok: string, text: string, s: string)
    requires PlainName(tok) && |text| > 0 && Stripped(text) && ':' !in text && s == "= " + text
    ensures ScanRule(tok, s) == Ok(Some(Literal(tok, EscapeBackslash(text, '"'), None)))
  {
    assert ':' !in s;
    assert Search(s, IntroColon).None?;
    assert s[1..] == " " + text;
    StripPadded(" ", text, []);
    assert " " + text + [] == " " + text;
  }

  /** `TOK := text`, the text without colons, is a literal rule with no terminator. */
  lemma LiteralLine(tok: string, text: string)
    requires PlainName(tok) && |text| > 0 && Stripped(text) && ':' !in text
    ensures ScanLexLine(tok + " := " + text) == Ok(Some(Literal(tok, EscapeBackslash(text, '"'), None)))
  {
    var l := tok + " := " + text;
    var rest := ":= " + text;
    assert l == tok + " " + rest;
    assert Stripped(l);
    assert rest[1..] == "= " + text;
    LiteralRule(tok, text, rest[1..]);
    TokenLine(tok, " ", rest, l);
  }

  /** The terminator separator of a literal line: `: ` or `:: `. */
  function TerminatorSep(caseSensitive: bool): string {
    if caseSensitive then ":: " else ": "
  }

  /** A literal rule text whose separator search finds the colon at `q`. */
  lemma LiteralRuleParts(tok: string, s: string, p: nat, q: nat, lit: string, re: RegexSpec)
    requires |s| >= 2 && s[0] == '=' && Search(s, IntroColon) == Some((p, q))
    requires Strip(s[1..q]) == lit && ScanRegex(s[q + 1..]) == Ok(Some(re))
    ensures ScanRule(tok, s) == Ok(Some(Literal(tok, EscapeBackslash(lit, '"'), Some(re))))
  {
  }

  /** The rule text of a literal line with a terminator: `= text : regex`, the
      separator's colon preceded by the whitespace `p`. */
  lemma LiteralTerminatorRule(tok: string, text: string, p: string, pat: string, caseSensitive: bool, s: string)
    requires |text| > 0 && Stripped(text) && ':' !in text && |p| > 0 && AllSpace(p)
    requires |pat| > 0 && Stripped(pat)
    requires s == "= " + text + p + TerminatorSep(caseSensitive) + pat
    ensures ScanRule(tok, s)
      == Ok(Some(Literal(tok, EscapeBackslash(text, '"'),
                         Some(RegexSpec(EscapeBackslash(pat, '"'), if caseSensitive then CaseSensitive else Default)))))
  {
    var q := |text| + 2 + |p|;
    LiteralTerminatorParts(text, p, pat, caseSensitive, s, q);
    LiteralRuleParts(tok, s, |text| + 2, q, text,
                     RegexSpec(EscapeBackslash(pat, '"'), if caseSensitive then CaseSensitive else Default));
  }

  /** The pieces `= text p: regex` is scanned into: the separator found at `q`, the literal before it, the regex after it. */
  lemma LiteralTerminatorParts(text: string, p: string, pat: string, caseSensitive: bool, s: string, q: nat)
    requires |text| > 0 && Stripped(text) && ':' !in text && |p| > 0 && AllSpace(p)
    requires |pat| > 0 && Stripped(pat)
    requires s == "= " + text + p + TerminatorSep(caseSensitive) + pat && q == |text| + 2 + |p|
    ensures |s| >= 2 && s[0] == '=' && Search(s, IntroColon) == Some((|text| + 2, q)) && Strip(s[1..q]) == text
    ensures ScanRegex(s[q + 1..]) == Ok(Some(RegexSpec(EscapeBackslash(pat, '"'), if caseSensitive then CaseSensitive else Default)))
  {
    LiteralAroundSeparator(text, p, pat, caseSensitive, s, q);
    IntroAt(text, p, pat, caseSensitive, s, q);
  }

  /** The literal before the separator's colon at `q` and the regex after it. */
  lemma LiteralAroundSeparator(text: string, p: string, pat: string, caseSensitive: bool, s: string, q: nat)
    requires |text| > 0 && Stripped(text) && AllSpace(p)
    requires |pat| > 0 && Stripped(pat)
    requires s == "= " + text + p + TerminatorSep(caseSensitive) + pat && q == |text| + 2 + |p|
    ensures |s| >= 2 && s[0] == '=' && Strip(s[1..q]) == text
    ensures ScanRegex(s[q + 1..]) == Ok(Some(RegexSpec(EscapeBackslash(pat, '"'), if caseSensitive then CaseSensitive else Default)))
  {
    assert s[0] == '=';
    LiteralTextStrip(text, p, TerminatorSep(caseSensitive) + pat, s, q);
    TerminatorRegex(text, p, pat, caseSensitive, s, q);
  }

  /** `TOK := text : regex` and `TOK := text :: regex` are literal rules with a
      terminator regex, however the token and the separator's colon are padded. */
  lemma LiteralTerminatorLine(tok: string, p1: string, text: string, p2: string, pat: string, caseSensitive: bool)
    requires PlainName(tok) && AllSpace(p1) && |text| > 0 && Stripped(text) && ':' !in text
    requires |p2| > 0 && AllSpace(p2) && |pat| > 0 && Stripped(pat)
    ensures var flag := if caseSensitive then CaseSensitive else Default;
      ScanLexLine(tok + p1 + ":= " + text + p2 + TerminatorSep(caseSensitive) + pat)
        == Ok(Some(Literal(tok, EscapeBackslash(text, '"'), Some(RegexSpec(EscapeBackslash(pat, '"'), flag)))))
  {
    var sep := TerminatorSep(caseSensitive);
    var l := tok + p1 + ":= " + text + p2 + sep + pat;
    var rest := ":= " + text + p2 + sep + pat;
    assert l == tok + p1 + rest;
    assert l[0] == tok[0] && l[|l| - 1] == pat[|pat| - 1];
    assert rest[1..] == "= " + text + p2 + sep + pat;
    LiteralTerminatorRule(tok, text, p2, pat, caseSensitive, rest[1..]);
    TokenLine(tok, p1, rest, l);
  }

  /** The literal text of `= text p: regex`, between `=` and the separator's colon, strips to `text`. */
  lemma LiteralTextStrip(text: string, p: string, tail: string, s: string, q: nat)
    requires |text| > 0 && Stripped(text) && AllSpace(p)
    requires s == "= " + text + p + tail && q == |text| + 2 + |p|
    ensures Strip(s[1..q]) == text
  {
    LiteralTextPart(text, p, tail, s);
    StripPadded(" ", text, p);
  }

  /** The terminator text of `= text p: regex`, after the separator's first colon, reads as `regex`. */
  lemma TerminatorRegex(text: string, p: string, pat: string, caseSensitive: bool, s: string, q: nat)
    requires |pat| > 0 && Stripped(pat)
    requires s == "= " + text + p + TerminatorSep(caseSensitive) + pat && q == |text| + 2 + |p|
    ensures ScanRegex(s[q + 1..])
      == Ok(Some(RegexSpec(EscapeBackslash(pat, '"'), if caseSensitive then CaseSensitive else Default)))
  {
    var u := TerminatorSep(caseSensitive);
    var a := "= " + text + p;
    var r := (if caseSensitive then ": " else " ") + pat;
    assert s[|a| + 1..] == r by {
      assert s == a + (u + pat);
      assert s[|a|..] == u + pat;
      assert (u + pat)[1..] == u[1..] + pat;
    }
    assert |a| == q;
    RegexText(pat, caseSensitive, s[q + 1..]);
  }

  lemma LiteralTextPart(text: string, p: string, tail: string, s: string)
    requires s == "= " + text + p + tail
    ensures s[1..|text| + 2 + |p|] == " " + text + p
  {
    assert s == "=" + (" " + text + p) + tail;
  }

  /** In `= text p: regex` the terminator separator is the leftmost match of
      `\s+(:)[:]?\s+`, its colon the one after `p`. */
  lemma IntroAt(text: string, p: string, pat: string, caseSensitive: bool, s: string, q: nat)
    requires |text| > 0 && Stripped(text) && ':' !in text && |p| > 0 && AllSpace(p)
    requires s == "= " + text + p + TerminatorSep(caseSensitive) + pat && q == |text| + 2 + |p|
    ensures Search(s, IntroColon) == Some((|text| + 2, q))
  {
    var start := |text| + 2;
    assert s[start..q] == p;
    assert s[q..] == TerminatorSep(caseSensitive) + pat;
    if caseSensitive {
      assert s[q] == ':' && s[q + 1] == ':' && s[q + 2] == ' ';
    } else {
      assert s[q] == ':' && s[q + 1] == ' ';
    }
    assert MatchAt(s, IntroColon, start, q);
    assert forall k :: 0 <= k < q ==> s[k] != ':' by {
      forall k | 0 <= k < q ensures s[k] != ':' {
        if k >= start { assert s[k] == p[k - start]; }
        else if k >= 2 { assert s[k] == text[k - 2]; }
      }
    }
    assert !IsSpace(s[start - 1]) by { assert s[start - 1] == text[|text| - 1]; }
    LeftmostMatch(s, IntroColon, start, q);
  }

  /** The skip-rule reading of `!name : regex`. */
  lemma SkipRule(name: string, pat: string, l: string)
    requires NoSpace(name) && |pat| > 0 && Stripped(pat) && l == "!" + name + " : " + pat
    ensures ScanSkipLine(l) == Ok(Some(Skip(name, Some(RegexSpec(EscapeBackslash(pat, '"'), Default)))))
  {
    var p := |name| + 1;
    SkipNamePart(name, pat, l);
    SkipRegexPart(name, pat, l);
    SplitAt(name, l, p);
  }

  /** The text before the first `\s+:` of `!name : regex`, marker dropped, strips to `name`. */
  lemma SkipNamePart(name: string, pat: string, l: string)
    requires NoSpace(name) && l == "!" + name + " : " + pat
    ensures l[..|name| + 1] == "!" + name && Strip(Tail(l[..|name| + 1])) == name
  {
    assert l[..|name| + 1] == "!" + name;
    assert Tail("!" + name) == name;
    NoSpaceStripped(name);
    StrippedFixed(name);
  }

  /** The text after that colon reads as the regex, with the Default flag. */
  lemma SkipRegexPart(name: string, pat: string, l: string)
    requires |pat| > 0 && Stripped(pat) && l == "!" + name + " : " + pat
    ensures ScanRegex(l[|name| + 3..]) == Ok(Some(RegexSpec(EscapeBackslash(pat, '"'), Default)))
  {
    assert l[|name| + 3..] == " " + pat;
    RegexText(pat, false, l[|name| + 3..]);
  }

  /** `!name : regex` is a skip rule. */
  lemma SkipLine(name: string, pat: string)
    requires NoSpace(name) && |pat| > 0 && Stripped(pat)
    ensures ScanLexLine("!" + name + " : " + pat)
      == Ok(Some(Skip(name, Some(RegexSpec(EscapeBackslash(pat, '"'), Default)))))
  {
    var l := "!" + name + " : " + pat;
    assert Stripped(l);
    SkipRule(name, pat, l);
    Dispatch(l);
  }

  /** In `!name :...` the first whitespace run followed by a colon is the one after the name. */
  lemma SplitAt(name: string, l: string, p: nat)
    requires NoSpace(name) && p == |name| + 1 && p + 1 < |l|
    requires l[..p] == "!" + name && l[p] == ' ' && l[p + 1] == ':'
    ensures SplitSpaceColon(l) == Split(l[..p], l[p + 2..])
  {
    assert l[p..p + 1] == " ";
    assert MatchAt(l, SpaceColon, p, p + 1);
    var r := Search(l, SpaceColon);
    var i := r.value.0;
    var q := r.value.1;
    assert forall k :: 0 <= k < p ==> !IsSpace(l[k]) by {
      forall k | 0 <= k < p ensures !IsSpace(l[k]) {
        assert l[k] == l[..p][k];
        if k >= 1 { assert l[..p][k] == name[k - 1]; }
      }
    }
    AllSpaceAt(l, i, q, i);
    assert i == p;
    MatchEndUnique(l, SpaceColon, p, q, p + 1);
  }

  /** The string-rule reading of `'code := TOK`. */
  lemma StringRule(code: string, tok: string, l: string)
    requires PlainName(tok) && Stripped(code) && l == "'" + code + " := " + tok
    ensures ScanStringLine(l) == Ok(Some(StringDef(tok, code)))
  {
    var p := |code| + 2;
    LastDefine(code, tok, l, p);
    StringCodePart(code, tok, l, p);
    StringTokenPart(code, tok, l, p);
  }

  /** The text before the last `:=` of `'code := TOK`, marker dropped, strips to `code`. */
  lemma StringCodePart(code: string, tok: string, l: string, p: nat)
    requires Stripped(code) && l == "'" + code + " := " + tok && p == |code| + 2
    ensures Strip(Tail(l[..p])) == code
  {
    assert l[..p] == "'" + code + " ";
    assert Tail(l[..p]) == code + " ";
    StripPadded([], code, " ");
    assert [] + code + " " == code + " ";
  }

  /** The text after the last `:=` of `'code := TOK` strips to `TOK`. */
  lemma StringTokenPart(code: string, tok: string, l: string, p: nat)
    requires PlainName(tok) && l == "'" + code + " := " + tok && p == |code| + 2
    ensures Strip(l[p + 2..]) == tok
  {
    assert l[p + 2..] == " " + tok;
    NoSpaceStripped(tok);
    StripPadded(" ", tok, []);
    assert " " + tok + [] == " " + tok;
  }

  /** `'code := TOK` is a string rule; the token is taken from after the last `:=`. */
  lemma StringLine(code: string, tok: string)
    requires PlainName(tok) && Stripped(code)
    ensures ScanLexLine("'" + code + " := " + tok) == Ok(Some(StringDef(tok, code)))
  {
    var l := "'" + code + " := " + tok;
    assert Stripped(l);
    StringRule(code, tok, l);
    Dispatch(l);
  }

  lemma LastDefine(code: string, tok: string, l: string, p: nat)
    requires PlainName(tok) && l == "'" + code + " := " + tok && p == |code| + 2
    ensures RSplit1(l, ":=") == Split(l[..p], l[p + 2..])
  {
    assert l[p..p + 2] == ":=";
    assert OccursAt(l, ":=", p);
    assert forall i: nat :: p < i ==> !OccursAt(l, ":=", i) by {
      forall i: nat | p < i ensures !OccursAt(l, ":=", i) {
        if i + 2 <= |l| {
          assert l[i..i + 2][0] == l[i];
          if i == p + 1 { assert l[i] == '='; }
          else if i == p + 2 { assert l[i] == ' '; }
          else { assert l[i] == tok[i - p - 3]; }
        }
      }
    }
    var r := RFindFrom(l, ":=", |l|);
    assert r == p;
  }

  /** A line of a skip marker alone raises `IndexError` (no `\s+:` to split at). */
  lemma BareSkipMarkerRaises()
    ensures ScanLexLine("!") == Err(IndexError)
  {
    StrippedFixed("!");
    assert forall i: nat, q: nat :: !MatchAt("!", SpaceColon, i, q);
  }

  /** `TOK :` raises `IndexError`: the character after the colon does not exist. */
  lemma EmptyValueRaises(tok: string)
    requires PlainName(tok)
    ensures ScanLexLine(tok + " :") == Err(IndexError)
  {
    var l := tok + " :";
    assert Stripped(l) && l[0] == tok[0];
    assert ScanTokenLine(l) == Err(IndexError) by {
      TokenPart(tok, " ", ":", l);
    }
    Dispatch(l);
  }

  /** `TOK :=` raises `TypeError`: the missing literal cannot be unpacked. */
  lemma EmptyLiteralRaises(tok: string)
    requires PlainName(tok)
    ensures ScanLexLine(tok + " :=") == Err(TypeError)
  {
    var l := tok + " :=";
    assert l == tok + " " + ":=";
    assert Stripped(l);
    TokenLine(tok, " ", ":=", l);
    assert ":="[1..] == "=";
  }

  /** `TOK :x`, a regex of one character, raises `TypeError` as well. */
  lemma OneCharRegexRaises(tok: string, x: char)
    requires PlainName(tok) && !IsSpace(x) && x != '='
    ensures ScanLexLine(tok + " :" + [x]) == Err(TypeError)
  {
    var l := tok + " :" + [x];
    assert l == tok + " " + (":" + [x]);
    assert Stripped(l);
    TokenLine(tok, " ", ":" + [x], l);
    assert (":" + [x])[1..] == [x];
  }

  /** A skip rule whose regex starts with `=` raises the regex-expected `RuntimeError`. */
  lemma SkipWithLiteralRaises(name: string, text: string)
    requires NoSpace(name) && |text| > 0 && Stripped(text)
    ensures ScanLexLine("!" + name + " :=" + text) == Err(RuntimeError(LiteralWhereRegex))
  {
    var l := "!" + name + " :=" + text;
    assert Stripped(l);
    assert ScanSkipLine(l) == Err(RuntimeError(LiteralWhereRegex)) by {
      var p := |name| + 1;
      assert l[..p] == "!" + name;
      assert l[p + 2..] == "=" + text;
      SplitAt(name, l, p);
    }
    Dispatch(l);
  }

  /** A line whose first character is the colon names no token and is dropped. */
  lemma LeadingColonDropped(l: string)
    requires Stripped(l) && |l| > 0 && l[0] == ':'
    ensures ScanLexLine(l) == Ok(None)
  {
    assert ScanTokenLine(l) == Ok(None) by {
      FindFirstChar(l, ':', 0);
      assert Slice(l, 0, 0) == [];
    }
    Dispatch(l);
  }

  /** A one-character line other than the markers names no token either: without a
      colon the token is the line minus its last character. */
  lemma SingleCharDropped(l: string)
    requires |l| == 1 && !IsSpace(l[0]) && l[0] != '!' && l[0] != '\''
    ensures ScanLexLine(l) == Ok(None)
  {
    assert ScanTokenLine(l) == Ok(None) by {
      assert Slice(l, 0, -1) == [];
      if l[0] == ':' {
        FindFirstChar(l, ':', 0);
      }
    }
    Dispatch(l);
  }

  /** A stripped regex text with no colon flag reads as itself, escaped. */
  lemma RawRegex(l: string)
    requires Stripped(l) && |l| >= 2 && l[0] != '=' && l[0] != ':'
    ensures ScanRegex(l) == Ok(Some(RegexSpec(EscapeBackslash(l, '"'), Default)))
  {
    StrippedFixed(l);
  }

  /** The token and regex of a colon-free line. */
  lemma NoColonToken(l: string)
    requires Stripped(l) && |l| >= 2 && ':' !in l && l[0] != '='
    ensures ScanTokenLine(l) == Ok(Some(Value(Strip(l[..|l| - 1]), RegexSpec(EscapeBackslash(l, '"'), Default))))
  {
    var t := l[..|l| - 1];
    assert Find(l, ":") == -1 by {
      forall i: nat | i < |l| ensures !OccursAt(l, ":", i) { assert l[i..i + 1][0] == l[i]; }
    }
    assert Slice(l, 0, -1) == t;
    assert |Strip(t)| > 0 by {
      LeadingNonSpaceKept(t);
    }
    assert l[0..] == l;
    RawRegex(l);
    RegexRule(Strip(t), l, RegexSpec(EscapeBackslash(l, '"'), Default));
  }

  /** A line without a colon takes the line minus its last character as the token name. */
  lemma NoColonLine(l: string)
    requires Stripped(l) && |l| >= 2 && ':' !in l && l[0] != '!' && l[0] != '\'' && l[0] != '='
    ensures ScanLexLine(l) == Ok(Some(Value(Strip(l[..|l| - 1]), RegexSpec(EscapeBackslash(l, '"'), Default))))
  {
    NoColonToken(l);
    Dispatch(l);
  }

  /** Stripping keeps a text whose first character is not whitespace non-empty. */
  lemma LeadingNonSpaceKept(t: string)
    requires |t| > 0 && !IsSpace(t[0])
    ensures |Strip(t)| > 0
  {
    assert LStrip(t) == t;
    var r := RStrip(t);
    AllSpaceAt(t, |r|, |t|, 0);
  }
}
