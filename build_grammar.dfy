/** The pure parts of the grammar build script: the Python module name taken
    from a `@pymod` line, the `@lexdef` skeleton line written for a token name,
    the skeleton block printed for a token header, and the concatenation of
    header, parser implementation, generated lexer and grammar that is handed
    to lemon. File contents are parameters; reading files and running lemon
    and the C++ compiler are not part of this model. */
module BuildGrammar {
  import opened Wrappers
  import opened PyStr
  import opened PyRe
  import opened BuildLexer
  import opened LexDefLines

  const DefaultModule: string := "lemon_derived_parser"
  const PyMod: string := "@pymod"

  // ---------------------------------------------------------------- extract_module

  lemma PyModIsWord()
    ensures |PyMod| > 0 && NoSpace(PyMod)
  {
    forall i | 0 <= i < |PyMod| ensures !IsSpace(PyMod[i]) {
      assert '@' <= PyMod[i] <= 'z';
    }
  }

  lemma DefaultModuleIsWord()
    ensures |DefaultModule| > 0 && NoSpace(DefaultModule)
  {
    forall i | 0 <= i < |DefaultModule| ensures !IsSpace(DefaultModule[i]) {
      assert 'A' <= DefaultModule[i] <= 'z';
    }
  }

  /** The module named by the span from `@pymod`: its second word, stripped, or the default. */
  function ModuleOf(span: string): (r: string)
    ensures |r| > 0 && NoSpace(r)
    ensures |Words(span)| >= 2 ==> r == Words(span)[1]
    ensures |Words(span)| < 2 ==> r == DefaultModule
  {
    DefaultModuleIsWord();
    var ws := Words(span);
    if |ws| < 2 then DefaultModule
    else
      StrippedFixed(ws[1]);
      Strip(ws[1])
  }

  /** `extract_module` as written: the span runs from `@pymod` up to the next
      newline, cut with `text[start:end]`. When no newline follows, `end` is -1
      and the slice drops the text's last character. */
  function ExtractModule(text: string): (r: string)
    ensures |r| > 0 && NoSpace(r)
    ensures Find(text, PyMod) < 0 ==> r == DefaultModule
  {
    DefaultModuleIsWord();
    var start := Find(text, PyMod);
    if start < 0 then DefaultModule
    else ModuleOf(Slice(text, start, FindFrom(text, "\n", start)))
  }

  /** The same search with the span running to the end of the text when no newline follows. */
  function ExtractModuleFixed(text: string): (r: string)
    ensures |r| > 0 && NoSpace(r)
    ensures Find(text, PyMod) < 0 ==> r == DefaultModule
  {
    DefaultModuleIsWord();
    var start := Find(text, PyMod);
    if start < 0 then DefaultModule
    else
      var end := FindFrom(text, "\n", start);
      ModuleOf(if end < 0 then text[start..] else text[start..end])
  }

  /** The two agree whenever a newline follows the first `@pymod`. */
  lemma ExtractModuleAgrees(text: string)
    requires Find(text, PyMod) >= 0 ==> FindFrom(text, "\n", Find(text, PyMod)) >= 0
    ensures ExtractModule(text) == ExtractModuleFixed(text)
  {
    var start := Find(text, PyMod);
    if start >= 0 {
      var end := FindFrom(text, "\n", start);
      assert Slice(text, start, end) == text[start..end];
    }
  }

  lemma Regroup4(x: string, y: string, z: string, u: string)
    ensures x + y + z + u == x + y + (z + u)
  {
  }

  /** The words of two words padded with whitespace. */
  lemma TwoWords(w1: string, a: string, w2: string, b: string)
    requires |w1| > 0 && NoSpace(w1) && |w2| > 0 && NoSpace(w2) && |a| > 0 && AllSpace(a) && AllSpace(b)
    ensures Words(w1 + a + w2 + b) == [w1, w2]
  {
    Regroup4(w1, a, w2, b);
    OneWord(w2, b);
    WordThenSpace(w1, a, w2 + b);
  }

  /** The words of `@pymod` + whitespace + `name` + whitespace. */
  lemma DeclarationWords(name: string, a: string, b: string, line: string)
    requires |name| > 0 && NoSpace(name) && |a| > 0 && AllSpace(a) && AllSpace(b) && line == PyMod + a + name + b
    ensures Words(line) == [PyMod, name]
  {
    PyModIsWord();
    TwoWords(PyMod, a, name, b);
  }

  /** A declaration `@pymod name` on its own line names the module `name`,
      however it is padded, and whatever comes before it or after it. */
  lemma ModuleDeclared(pre: string, a: string, name: string, b: string, rest: string)
    requires |name| > 0 && NoSpace(name) && |a| > 0 && AllSpace(a) && AllSpace(b) && '\n' !in a + b
    requires Find(pre + PyMod + a + name + b + "\n" + rest, PyMod) == |pre|
    ensures ExtractModuleFixed(pre + PyMod + a + name + b + "\n" + rest) == name
    ensures ExtractModule(pre + PyMod + a + name + b + "\n" + rest) == name
  {
    var line := PyMod + a + name + b;
    var text := pre + PyMod + a + name + b + "\n" + rest;
    var end := |pre| + |line|;
    assert text == pre + line + "\n" + rest;
    DeclaredIn(pre, a, name, b, rest, text, line, end);
    ModuleOfLine(text, |pre|, end, line, name);
  }

  /** What the declaration line contributes: where its newline is, and its words. */
  lemma DeclaredIn(pre: string, a: string, name: string, b: string, rest: string, text: string, line: string, end: nat)
    requires |name| > 0 && NoSpace(name) && |a| > 0 && AllSpace(a) && AllSpace(b) && '\n' !in a + b
    requires line == PyMod + a + name + b && text == pre + line + "\n" + rest && end == |pre| + |line|
    ensures FindFrom(text, "\n", |pre|) == end
    ensures |pre| <= end <= |text| && text[|pre|..end] == line
    ensures Words(line) == [PyMod, name]
  {
    SliceMiddle(pre, line, rest, text, end);
    DeclarationWords(name, a, b, line);
    DeclarationLineEnd(pre, a, name, b, rest, text, line);
  }

  /** The middle of `pre + line + "\n" + rest` is `line`. */
  lemma SliceMiddle(pre: string, line: string, rest: string, text: string, end: nat)
    requires text == pre + line + "\n" + rest && end == |pre| + |line|
    ensures |pre| <= end <= |text| && text[|pre|..end] == line
  {
  }

  /** A span from the first `@pymod` to the next newline whose second word is `name`. */
  lemma ModuleOfLine(text: string, start: nat, end: nat, line: string, name: string)
    requires Find(text, PyMod) == start && start <= end <= |text| && FindFrom(text, "\n", start) == end
    requires text[start..end] == line && Words(line) == [PyMod, name]
    ensures ExtractModuleFixed(text) == name && ExtractModule(text) == name
  {
    ExtractWithNewline(text, start, end, line);
  }

  /** Both extractions when a newline at `end` closes the `@pymod` span. */
  lemma ExtractWithNewline(text: string, start: nat, end: nat, span: string)
    requires Find(text, PyMod) == start && start <= end <= |text| && FindFrom(text, "\n", start) == end
    requires text[start..end] == span
    ensures ExtractModule(text) == ModuleOf(span)
    ensures ExtractModuleFixed(text) == ModuleOf(span)
  {
  }

  /** The first newline after `pre` is the one that ends the declaration. */
  lemma DeclarationLineEnd(pre: string, a: string, name: string, b: string, rest: string, text: string, line: string)
    requires NoSpace(name) && '\n' !in a + b && line == PyMod + a + name + b && text == pre + line + "\n" + rest
    ensures FindFrom(text, "\n", |pre|) == |pre| + |line|
  {
    var end := |pre| + |line|;
    PyModIsWord();
    assert OccursAt(text, "\n", end) by { assert text[end..end + 1] == "\n"; }
    forall i | |pre| <= i < end ensures !OccursAt(text, "\n", i) {
      var k := i - |pre|;
      assert text[i..i + 1][0] == text[i] == line[k];
      if k < |PyMod| {
        assert line[k] == PyMod[k];
      } else if k < |PyMod| + |a| {
        assert line[k] == a[k - |PyMod|] == (a + b)[k - |PyMod|];
      } else if k < |PyMod| + |a| + |name| {
        assert line[k] == name[k - |PyMod| - |a|];
      } else {
        assert line[k] == b[k - |PyMod| - |a| - |name|] == (a + b)[k - |PyMod| - |name|];
      }
    }
  }

  /** No newline at or after `start`: `find` gives -1. */
  lemma NoNewlineFrom(text: string, start: nat)
    requires start <= |text| && forall i :: start <= i < |text| ==> text[i] != '\n'
    ensures FindFrom(text, "\n", start) == -1
  {
    forall i | start <= i <= |text| ensures !OccursAt(text, "\n", i) {
      if i < |text| { assert text[i..i + 1][0] == text[i]; }
    }
  }

  /** A text ending in `@pymod name` with no newline after it: the fixed search
      names the module `name`, the search as written drops its last character. */
  lemma ModuleAtEnd(pre: string, a: string, name: string)
    requires |name| >= 2 && NoSpace(name) && |a| > 0 && AllSpace(a) && '\n' !in a
    requires Find(pre + PyMod + a + name, PyMod) == |pre|
    ensures ExtractModuleFixed(pre + PyMod + a + name) == name
    ensures ExtractModule(pre + PyMod + a + name) == name[..|name| - 1]
  {
    var text := pre + PyMod + a + name;
    var start := |pre|;
    var short := name[..|name| - 1];
    NoNewlineAtEnd(pre, a, name);
    ExtractWithoutNewline(text, start);
    LastLineSlices(pre, PyMod, a, name);
    ModuleOfDeclaration(a, name);
    ModuleOfDeclaration(a, short);
  }

  /** The span from `@pymod` to the end, and the same span cut by `[start:-1]`. */
  lemma LastLineSlices(pre: string, m: string, a: string, name: string)
    requires |name| > 0
    ensures (pre + m + a + name)[|pre|..] == m + a + name
    ensures Slice(pre + m + a + name, |pre|, -1) == m + a + name[..|name| - 1]
  {
    var text := pre + m + a + name;
    assert text == pre + (m + a + name);
    assert text[..|text| - 1] == pre + (m + a + name[..|name| - 1]);
  }

  /** Both extractions when no newline follows `@pymod`. */
  lemma ExtractWithoutNewline(text: string, start: nat)
    requires Find(text, PyMod) == start && start <= |text| && FindFrom(text, "\n", start) == -1
    ensures ExtractModule(text) == ModuleOf(Slice(text, start, -1))
    ensures ExtractModuleFixed(text) == ModuleOf(text[start..])
  {
  }

  /** No newline follows `@pymod` in a last line. */
  lemma NoNewlineAtEnd(pre: string, a: string, name: string)
    requires NoSpace(name) && '\n' !in a
    ensures FindFrom(pre + PyMod + a + name, "\n", |pre|) == -1
  {
    NoNewlineAfter(pre, a, name, pre + PyMod + a + name);
  }

  lemma NoNewlineAfter(pre: string, a: string, name: string, text: string)
    requires NoSpace(name) && '\n' !in a && text == pre + PyMod + a + name
    ensures FindFrom(text, "\n", |pre|) == -1
  {
    PyModIsWord();
    forall i | |pre| <= i < |text| ensures text[i] != '\n' {
      var k := i - |pre|;
      if k < |PyMod| {
        assert text[i] == PyMod[k];
      } else if k < |PyMod| + |a| {
        assert text[i] == a[k - |PyMod|];
      } else {
        assert text[i] == name[k - |PyMod| - |a|];
      }
    }
    NoNewlineFrom(text, |pre|);
  }

  /** The module named by a `@pymod name` span. */
  lemma ModuleOfDeclaration(a: string, name: string)
    requires |name| > 0 && NoSpace(name) && |a| > 0 && AllSpace(a)
    ensures ModuleOf(PyMod + a + name) == name
  {
    PyModIsWord();
    TwoWords(PyMod, a, name, []);
    assert PyMod + a + name + [] == PyMod + a + name;
  }

  // ---------------------------------------------------------------- lexdef_skeleton

  /** The terminator regex every skeleton literal carries, `[^\w_]`. */
  const WordEnd: string := "[^\\w_]"

  /** `lexdef_skeleton` as written: both separators right-justified to `16 - len(t)`. */
  function LexdefSkeleton(t: string): (r: string)
    ensures StartsWith(r, t) && EndsWith(r, " " + WordEnd)
  {
    var w := 16 - |t|;
    SkeletonParts(t, RJust(":=", w), Lower(t), RJust(":", w));
    t + RJust(":=", w) + " " + Lower(t) + RJust(":", w) + " " + WordEnd
  }

  /** A line made of the token, a separator, the lowered token and a second
      separator starts with the token and ends with the terminator. */
  lemma SkeletonParts(t: string, a: string, l: string, b: string)
    ensures var r := t + a + " " + l + b + " " + WordEnd;
      StartsWith(r, t) && EndsWith(r, " " + WordEnd)
  {
    var r := t + a + " " + l + b + " " + WordEnd;
    assert r == t + (a + " " + l + b + " " + WordEnd);
    assert r[..|t|] == t;
    assert r == (t + a + " " + l + b) + (" " + WordEnd);
    EndsWithConcat(t + a + " " + l + b, " " + WordEnd);
  }

  /** The width the separators are right-justified to, at least 2 so that the
      terminator's colon always has a space before it. */
  function SkeletonWidth(t: string): (w: int)
    ensures w >= 2 && w >= 16 - |t|
  {
    if 16 - |t| < 2 then 2 else 16 - |t|
  }

  /** The skeleton line with the width kept at 2 or more. */
  function SkeletonFixed(t: string): (r: string)
    ensures StartsWith(r, t) && EndsWith(r, " " + WordEnd)
  {
    var w := SkeletonWidth(t);
    SkeletonParts(t, RJust(":=", w), Lower(t), RJust(":", w));
    t + RJust(":=", w) + " " + Lower(t) + RJust(":", w) + " " + WordEnd
  }

  /** For names of up to 14 characters the two are the same line. */
  lemma SkeletonAgrees(t: string)
    requires |t| <= 14
    ensures LexdefSkeleton(t) == SkeletonFixed(t)
  {
  }

  /** Lowering keeps a plain name's shape. */
  lemma LowerPlain(t: string)
    requires NoSpace(t) && ':' !in t
    ensures NoSpace(Lower(t)) && ':' !in Lower(t) && Stripped(Lower(t)) && |Lower(t)| == |t|
  {
    var l := Lower(t);
    forall i | 0 <= i < |l| ensures !IsSpace(l[i]) && l[i] != ':' {
      assert l[i] == LowerChar(t[i]);
    }
  }

  lemma WordEndShape()
    ensures |WordEnd| == 6 && Stripped(WordEnd) && ':' !in WordEnd
  {
  }

  /** The fixed skeleton line spelled out: the token, padding, `:= `, the lowered token, padding, `: [^\w_]`. */
  lemma SkeletonFixedShape(t: string)
    ensures var w := SkeletonWidth(t);
      SkeletonFixed(t) == t + Spaces(w - 2) + ":= " + Lower(t) + Spaces(w - 1) + TerminatorSep(false) + WordEnd
  {
    var w := SkeletonWidth(t);
    RJustPads(":=", w);
    RJustPads(":", w);
    var p1 := Spaces(w - 2);
    var p2 := Spaces(w - 1);
    var l := Lower(t);
    assert SkeletonFixed(t) == t + (p1 + ":=") + " " + l + (p2 + ":") + " " + WordEnd;
    PaddedRegroup(t, p1, ":=", " ", l, p2, ":", WordEnd, ":= ", TerminatorSep(false));
  }

  /** Moving the separators of a skeleton line next to the space after them. */
  lemma PaddedRegroup(t: string, p1: string, x: string, y: string, l: string, p2: string, z: string, e: string, xy: string, zy: string)
    requires xy == x + y && zy == z + y
    ensures t + (p1 + x) + y + l + (p2 + z) + y + e == t + p1 + xy + l + p2 + zy + e
  {
  }

  /** Every fixed skeleton line reads back as the literal rule for the token's
      lowered name, terminated by `[^\w_]`. */
  lemma SkeletonFixedScans(t: string)
    requires PlainName(t)
    ensures ScanLexLine(SkeletonFixed(t))
      == Ok(Some(Literal(t, EscapeBackslash(Lower(t), '"'), Some(RegexSpec(EscapeBackslash(WordEnd, '"'), Default)))))
  {
    var w := SkeletonWidth(t);
    SkeletonFixedShape(t);
    PaddedSkeletonScans(t, Spaces(w - 2), Spaces(w - 1), SkeletonFixed(t));
  }

  /** A skeleton line with any whitespace padding reads back as the literal rule for the lowered name. */
  lemma PaddedSkeletonScans(t: string, p1: string, p2: string, line: string)
    requires PlainName(t) && AllSpace(p1) && |p2| > 0 && AllSpace(p2)
    requires line == t + p1 + ":= " + Lower(t) + p2 + TerminatorSep(false) + WordEnd
    ensures ScanLexLine(line)
      == Ok(Some(Literal(t, EscapeBackslash(Lower(t), '"'), Some(RegexSpec(EscapeBackslash(WordEnd, '"'), Default)))))
  {
    LowerPlain(t);
    WordEndShape();
    LiteralTerminatorLine(t, p1, Lower(t), p2, WordEnd, false);
  }

  lemma Regroup(t: string, a: string, b: string, l: string, c: string, d: string, w: string)
    ensures t + a + b + l + c + d + w == t + [] + ((a + b) + (l + (c + d) + w))
  {
  }

  lemma LongSkeletonText(t: string, l: string)
    ensures t + ":=" + " " + l + ":" + " " + WordEnd == t + [] + (":= " + (l + ": " + WordEnd))
  {
    Regroup(t, ":=", " ", l, ":", " ", WordEnd);
    assert ":=" + " " == ":= " && ":" + " " == ": ";
  }

  lemma LongSkeletonUnpadded(t: string)
    requires |t| >= 15
    ensures LexdefSkeleton(t) == t + ":=" + " " + Lower(t) + ":" + " " + WordEnd
  {
    assert RJust(":=", 16 - |t|) == ":=";
    assert RJust(":", 16 - |t|) == ":";
  }

  /** The skeleton as written for a name of 15 or more characters spelled out:
      no padding at all, so the terminator's colon follows the lowered name directly. */
  lemma LongSkeletonShape(t: string)
    requires |t| >= 15
    ensures LexdefSkeleton(t) == t + [] + (":= " + (Lower(t) + ": " + WordEnd))
  {
    LongSkeletonUnpadded(t);
    LongSkeletonText(t, Lower(t));
  }

  /** In `= text: [^\w_]` no whitespace run precedes a colon, so `\s+(:)[:]?\s+` does not match. */
  lemma NoTerminatorSeparator(text: string, s: string)
    requires |text| > 0 && NoSpace(text) && ':' !in text && s == "= " + (text + ": " + WordEnd)
    ensures Search(s, IntroColon).None?
  {
    var c := |text| + 2;
    assert forall k :: 0 <= k < |s| && k != c ==> s[k] != ':' by {
      forall k | 0 <= k < |s| && k != c ensures s[k] != ':' {
        if 2 <= k < c {
          assert s[k] == text[k - 2];
        } else if k > c + 1 {
          assert s[k] == WordEnd[k - c - 2];
        }
      }
    }
    assert !IsSpace(s[c - 1]) by { assert s[c - 1] == text[|text| - 1]; }
    forall i: nat, q: nat ensures !MatchAt(s, IntroColon, i, q) {
      AllSpaceAt(s, i, q, c - 1);
    }
  }

  /** For a name of 15 or more characters the skeleton as written reads back
      as a literal without terminator, whose text runs to the end of the line. */
  lemma SkeletonLosesTerminator(t: string)
    requires PlainName(t) && |t| >= 15
    ensures ScanLexLine(LexdefSkeleton(t))
      == Ok(Some(Literal(t, EscapeBackslash(Lower(t) + ": " + WordEnd, '"'), None)))
  {
    LongSkeletonShape(t);
    LowerPlain(t);
    LongSkeletonLine(t, Lower(t) + ": " + WordEnd, LexdefSkeleton(t));
  }

  /** The unpadded line `t:= x` is the literal rule `x` for `t` when `x` has no separator. */
  lemma LongSkeletonLine(t: string, x: string, line: string)
    requires PlainName(t) && NoSpace(Lower(t)) && ':' !in Lower(t) && |Lower(t)| == |t|
    requires x == Lower(t) + ": " + WordEnd && line == t + [] + (":= " + x)
    ensures ScanLexLine(line) == Ok(Some(Literal(t, EscapeBackslash(x, '"'), None)))
  {
    var rest := ":= " + x;
    assert rest[1..] == "= " + x by { TailOfAppend(":= ", x); }
    LongSkeletonStripped(t, x, line);
    UnterminatedRule(t, Lower(t), x, rest[1..]);
    TokenLine(t, [], rest, line);
  }

  lemma LongSkeletonStripped(t: string, x: string, line: string)
    requires PlainName(t) && x == Lower(t) + ": " + WordEnd && line == t + [] + (":= " + x)
    ensures Stripped(line)
  {
    assert line[0] == t[0];
    assert line[|line| - 1] == x[|x| - 1] == WordEnd[5];
  }

  /** `= l: [^\w_]` has no `\s+(:)[:]?\s+` separator, so all of it after `=` is the literal. */
  lemma UnterminatedRule(t: string, l: string, x: string, s: string)
    requires |l| > 0 && NoSpace(l) && ':' !in l && x == l + ": " + WordEnd && s == "= " + x
    ensures ScanRule(t, s) == Ok(Some(Literal(t, EscapeBackslash(x, '"'), None)))
  {
    WordEndShape();
    assert s[1..] == " " + x by { TailOfAppend("= ", x); }
    assert Strip(s[1..]) == x by {
      assert x[0] == l[0] && x[|x| - 1] == WordEnd[5];
      SpacedStrip(x);
    }
    NoTerminatorSeparator(l, s);
    LiteralWithoutTerminator(t, s, x);
  }

  // ---------------------------------------------------------------- concatenate_input

  /** The text that opens the `%include` block, after the grammar header. */
  const IncludeOpen: string := "\n%include {\n"
  /** The text that closes the `%include` block, before the grammar. */
  const IncludeClose: string := "\n}\n"

  /** A text made of three parts starts with the first, ends with the last, and holds the middle between them. */
  lemma ThreeParts(pre: string, mid: string, post: string)
    ensures var out := pre + mid + post;
      StartsWith(out, pre) && EndsWith(out, post) && |pre| + |post| <= |out|
      && out[|pre|..|out| - |post|] == mid
  {
    var out := pre + mid + post;
    assert out[..|pre|] == pre;
    assert out[|out| - |post|..] == post;
    assert out[|pre|..|out| - |post|] == mid;
  }

  /** `concatenate_input`, with the header file's and the parser implementation's
      texts as parameters: header, the `%include` block holding the
      implementation followed by the generated lexer, then the grammar itself.
      An error from `make_lexer` (always called with `uni` false) propagates. */
  function ConcatenateInput(header: string, impl: string, grammar: string): (r: Result<string, PyError>)
    ensures r.Err? <==> MakeLexer(grammar, false).Err?
    ensures r.Err? ==> r.error == MakeLexer(grammar, false).error
    ensures r.Ok? ==>
      var pre := header + IncludeOpen + impl;
      var post := IncludeClose + grammar;
      StartsWith(r.value, pre) && EndsWith(r.value, post) && |pre| + |post| <= |r.value|
      && r.value[|pre|..|r.value| - |post|] == MakeLexer(grammar, false).value
  {
    var lexer :- MakeLexer(grammar, false);
    ThreeParts(header + IncludeOpen + impl, lexer, IncludeClose + grammar);
    Ok(header + IncludeOpen + impl + lexer + (IncludeClose + grammar))
  }

  /** Two ways of cutting a text made of `pre`, `s`, `m`, `e` and `post`. */
  lemma FiveParts(pre: string, s: string, m: string, e: string, post: string)
    ensures var out := pre + (s + m + e) + post;
      StartsWith(out, pre + s) && EndsWith(out, e + post)
  {
    var out := pre + (s + m + e) + post;
    assert out == (pre + s) + (m + e + post);
    assert out == (pre + s + m) + (e + post);
    assert out[..|pre + s|] == pre + s;
    assert out[|out| - |e + post|..] == e + post;
  }

  /** The generated lexer sits inside the `%include` block: after the
      implementation comes `LEXER_START`, and `LEXER_END` closes it just before
      the block's closing brace. */
  lemma LexerInsideInclude(header: string, impl: string, grammar: string)
    requires ConcatenateInput(header, impl, grammar).Ok?
    ensures var out := ConcatenateInput(header, impl, grammar).value;
      StartsWith(out, header + IncludeOpen + impl + LexerStart)
      && EndsWith(out, LexerEnd + (IncludeClose + grammar))
  {
    var lexer := MakeLexer(grammar, false).value;
    var m := lexer[|LexerStart|..|lexer| - |LexerEnd|];
    assert lexer == LexerStart + m + LexerEnd by {
      assert lexer == lexer[..|LexerStart|] + lexer[|LexerStart|..|lexer| - |LexerEnd|] + lexer[|lexer| - |LexerEnd|..];
    }
    FiveParts(header + IncludeOpen + impl, LexerStart, m, LexerEnd, IncludeClose + grammar);
  }

  // ---------------------------------------------------------------- print_lang_header

  /** What `print_lang_header` prints before the skeleton lines. The `\s` in
      the source's non-raw string literal is not an escape, so the backslash
      is kept. */
  const HeaderPrologue: string := "/*\n@pymod unnamed_language\n\n@lexdef\n\n!whitespace : \\s+\n"
  /** What it prints after them. */
  const HeaderEpilogue: string := "@endlex\n*/"

  /** Printed output, and the exception that ended the printing if one did. */
  datatype Printed = Printed(out: string, raised: Option<PyError>)

  /** The token name on one header line, its second word; `l.split()[1]`
      raises `IndexError` on a line with fewer than two words. The source
      strips the word as well, which leaves a word unchanged (`WordStripped`). */
  function HeaderName(line: string): (r: Result<string, PyError>)
    ensures r.Err? <==> |Words(line)| < 2
    ensures r.Err? ==> r.error == IndexError
    ensures r.Ok? ==> r.value == Words(line)[1] && |r.value| > 0 && NoSpace(r.value)
  {
    var ws := Words(line);
    if |ws| < 2 then Err(IndexError) else Ok(ws[1])
  }

  /** `.strip()` of a word is the word itself. */
  lemma WordStripped(line: string, k: nat)
    requires k < |Words(line)|
    ensures Strip(Words(line)[k]) == Words(line)[k]
  {
    StrippedFixed(Words(line)[k]);
  }

  /** The token names of all the header lines, in order, or the first line's error. */
  function HeaderNames(lines: seq<string>): (r: Result<seq<string>, PyError>)
    ensures r.Ok? <==> forall k :: 0 <= k < |lines| ==> HeaderName(lines[k]).Ok?
    ensures r.Err? ==> r.error == IndexError
    ensures r.Ok? ==> |r.value| == |lines|
    ensures r.Ok? ==> forall k :: 0 <= k < |lines| ==> r.value[k] == HeaderName(lines[k]).value
  {
    var rs := seq(|lines|, k requires 0 <= k < |lines| => HeaderName(lines[k]));
    assert forall k :: 0 <= k < |lines| ==> rs[k] == HeaderName(lines[k]);
    AllOk(rs)
  }

  /** One skeleton line per token name, in order. */
  function Skeletons(names: seq<string>): (r: seq<string>)
    ensures |r| == |names| && forall k :: 0 <= k < |names| ==> r[k] == LexdefSkeleton(names[k])
  {
    seq(|names|, k requires 0 <= k < |names| => LexdefSkeleton(names[k]))
  }

  /** `print_lang_header`, with the lines of the generated token header as a
      parameter. Each `print` ends its text with a newline. The skeleton lines
      are produced lazily while they are joined, so a malformed header line
      raises after the prologue has been printed and before anything else is. */
  function LangHeader(lines: seq<string>): (r: Printed)
    ensures StartsWith(r.out, HeaderPrologue + "\n")
    ensures r.raised.Some? <==> exists k :: 0 <= k < |lines| && |Words(lines[k])| < 2
    ensures r.raised.Some? ==> r.raised == Some(IndexError) && r.out == HeaderPrologue + "\n"
    ensures r.raised.None? ==> exists skeletons: seq<string> ::
      && |skeletons| == |lines|
      && (forall k :: 0 <= k < |lines| ==> skeletons[k] == LexdefSkeleton(Words(lines[k])[1]))
      && r.out == HeaderPrologue + "\n" + (JoinWith(skeletons, "\n") + "\n" + HeaderEpilogue + "\n")
  {
    var first := HeaderPrologue + "\n";
    match HeaderNames(lines)
    case Err(e) =>
      assert first[..|first|] == first;
      Printed(first, Some(e))
    case Ok(names) =>
      var skeletons := Skeletons(names);
      var out := first + (JoinWith(skeletons, "\n") + "\n" + HeaderEpilogue + "\n");
      assert out[..|first|] == first;
      Printed(out, None)
  }

  lemma ConcatSixParts(define: string, name: string, code: string, a: string, b: string, c: string)
    ensures define + a + name + b + code + c == define + a + (name + b + code + c)
  {
  }

  lemma WordThenTwo(w: string, a: string, rest: string, name: string, code: string)
    requires |w| > 0 && NoSpace(w) && |a| > 0 && AllSpace(a) && Words(rest) == [name, code]
    ensures Words(w + a + rest) == [w, name, code]
  {
    WordThenSpace(w, a, rest);
  }

  /** A lemon token header line `#define NAME CODE` has `NAME` as its second word. */
  lemma DefineLineWords(define: string, name: string, code: string, a: string, b: string, c: string)
    requires |define| > 0 && NoSpace(define) && |name| > 0 && NoSpace(name) && |code| > 0 && NoSpace(code)
    requires |a| > 0 && AllSpace(a) && |b| > 0 && AllSpace(b) && AllSpace(c)
    ensures Words(define + a + name + b + code + c) == [define, name, code]
  {
    ConcatSixParts(define, name, code, a, b, c);
    TwoWords(name, b, code, c);
    WordThenTwo(define, a, name + b + code + c, name, code);
  }
}
