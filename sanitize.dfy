/** `sanitize` of `lemon_py/ParseNode.hpp`, which escapes node labels for
    DOT: four passes of the `clean` loop, each finding the next occurrence
    of one character, erasing it and inserting its entity in its place. */
module Sanitize {
  import opened Wrappers

  /** `std::string::find(c, from)`: the first index at or after `from`
      holding `c`. */
  function FindFrom(s: string, c: char, from: nat): (r: Option<nat>)
    ensures r.Some? ==> from <= r.value < |s| && s[r.value] == c && forall k :: from <= k < r.value ==> s[k] != c
    ensures r.None? ==> forall k :: from <= k < |s| ==> s[k] != c
    decreases |s| - from
  {
    if from >= |s| then None
    else if s[from] == c then Some(from)
    else FindFrom(s, c, from + 1)
  }

  /** Every `c` of `s` replaced by `rep`. */
  function ReplaceAll(s: string, c: char, rep: string): string
    decreases |s|
  {
    if |s| == 0 then "" else (if s[0] == c then rep else [s[0]]) + ReplaceAll(s[1..], c, rep)
  }

  lemma {:induction false} ReplaceAllConcat(a: string, b: string, c: char, rep: string)
    ensures ReplaceAll(a + b, c, rep) == ReplaceAll(a, c, rep) + ReplaceAll(b, c, rep)
    decreases |a|
  {
    if |a| == 0 {
      assert a + b == b;
    } else {
      assert (a + b)[0] == a[0] && (a + b)[1..] == a[1..] + b;
      ReplaceAllConcat(a[1..], b, c, rep);
    }
  }

  lemma {:induction false} ReplaceAllAbsent(s: string, c: char, rep: string)
    requires forall k :: 0 <= k < |s| ==> s[k] != c
    ensures ReplaceAll(s, c, rep) == s
    decreases |s|
  {
    if |s| > 0 {
      ReplaceAllAbsent(s[1..], c, rep);
    }
  }

  /** The replaced prefix of the input grows by a run without `c` and one `c`. */
  lemma CleanStep(s: string, k: nat, j: nat, c: char, rep: string)
    requires k + j < |s| && s[k + j] == c
    requires forall t :: k <= t < k + j ==> s[t] != c
    ensures ReplaceAll(s[..k + j + 1], c, rep) == ReplaceAll(s[..k], c, rep) + s[k..k + j] + rep
  {
    assert s[..k + j + 1] == s[..k] + s[k..k + j] + [c];
    ReplaceAllConcat(s[..k] + s[k..k + j], [c], c, rep);
    ReplaceAllConcat(s[..k], s[k..k + j], c, rep);
    ReplaceAllAbsent(s[k..k + j], c, rep);
    assert ReplaceAll([c], c, rep) == rep + ReplaceAll([], c, rep);
  }

  /** The rest of the input holds no `c`, so the output is complete. */
  lemma CleanDone(s: string, k: nat, c: char, rep: string)
    requires k <= |s| && forall t :: k <= t < |s| ==> s[t] != c
    ensures ReplaceAll(s, c, rep) == ReplaceAll(s[..k], c, rep) + s[k..]
  {
    assert s == s[..k] + s[k..];
    ReplaceAllConcat(s[..k], s[k..], c, rep);
    ReplaceAllAbsent(s[k..], c, rep);
  }

  /** `erase(p, 1)` then `insert(p, rep)`. */
  function Spliced(s: string, p: nat, rep: string): string
    requires p < |s|
  {
    s[..p] + rep + s[p + 1..]
  }

  /** One iteration of `clean` keeps the loop's picture: the text is the
      replaced prefix of the input followed by the rest of the input, and
      no `c` lies between the search position and the end of that prefix. */
  lemma CleanAdvance(input: string, k: nat, s: string, res: nat, p: nat, c: char, rep: string, skipForward: nat) returns (k': nat)
    requires skipForward <= |rep| && forall t :: skipForward <= t < |rep| ==> rep[t] != c
    requires k <= |input| && s == ReplaceAll(input[..k], c, rep) + input[k..]
    requires res <= |ReplaceAll(input[..k], c, rep)|
    requires forall t :: res <= t < |ReplaceAll(input[..k], c, rep)| ==> s[t] != c
    requires res <= p < |s| && s[p] == c && forall t :: res <= t < p ==> s[t] != c
    ensures k < k' <= |input|
    ensures Spliced(s, p, rep) == ReplaceAll(input[..k'], c, rep) + input[k'..]
    ensures p + skipForward <= |ReplaceAll(input[..k'], c, rep)|
    ensures forall t :: p + skipForward <= t < |ReplaceAll(input[..k'], c, rep)| ==> Spliced(s, p, rep)[t] != c
  {
    var done := ReplaceAll(input[..k], c, rep);
    var j := p - |done|;
    assert forall t :: k <= t < k + j ==> input[t] == s[|done| + t - k];
    assert input[k + j] == s[p];
    CleanStep(input, k, j, c, rep);
    k' := k + j + 1;
    var s' := Spliced(s, p, rep);
    assert s[..p] == done + input[k..k + j];
    assert s[p + 1..] == input[k'..];
    assert forall t :: p + skipForward <= t < p + |rep| ==> s'[t] == rep[t - p];
  }

  /** When no `c` is left after the search position, the text is the whole
      input replaced. */
  lemma CleanFinish(input: string, k: nat, s: string, res: nat, c: char, rep: string)
    requires k <= |input| && s == ReplaceAll(input[..k], c, rep) + input[k..]
    requires res <= |ReplaceAll(input[..k], c, rep)|
    requires forall t :: res <= t < |s| ==> s[t] != c
    ensures s == ReplaceAll(input, c, rep)
  {
    var done := ReplaceAll(input[..k], c, rep);
    assert forall t :: k <= t < |input| ==> input[t] == s[|done| + t - k];
    CleanDone(input, k, c, rep);
  }

  /** The lambda `clean` of `sanitize`. After each replacement the search
      resumes `skipForward` characters into the inserted text; it ends
      only because that text holds no further `c` beyond that point. */
  method Clean(input: string, c: char, rep: string, skipForward: nat) returns (s: string)
    requires skipForward <= |rep| && forall t :: skipForward <= t < |rep| ==> rep[t] != c
    ensures s == ReplaceAll(input, c, rep)
  {
    s := input;
    var res: nat := 0;
    ghost var k := 0;
    assert input[..0] == [];
    var found := FindFrom(s, c, res);
    while found.Some?
      invariant k <= |input| && s == ReplaceAll(input[..k], c, rep) + input[k..]
      invariant res <= |ReplaceAll(input[..k], c, rep)|
      invariant forall t :: res <= t < |ReplaceAll(input[..k], c, rep)| ==> s[t] != c
      invariant found == FindFrom(s, c, res)
      decreases |input| - k
    {
      var p := found.value;
      k := CleanAdvance(input, k, s, res, p, c, rep, skipForward);
      s := Spliced(s, p, rep);
      res := p + skipForward;
      found := FindFrom(s, c, res);
    }
    CleanFinish(input, k, s, res, c, rep);
  }

  /** The entity `sanitize` writes for a character; others stay as they are. */
  function Escape(x: char): string {
    if x == '&' then "&amp;"
    else if x == '"' then "&quot;"
    else if x == '<' then "&lt;"
    else if x == '>' then "&gt;"
    else [x]
  }

  /** The sanitized text: each character replaced by its entity. */
  function Sanitized(s: string): string
    decreases |s|
  {
    if |s| == 0 then "" else Escape(s[0]) + Sanitized(s[1..])
  }

  /** The four passes in the order `sanitize` runs them. */
  function Passes(s: string): string {
    ReplaceAll(ReplaceAll(ReplaceAll(ReplaceAll(s, '&', "&amp;"), '"', "&quot;"), '<', "&lt;"), '>', "&gt;")
  }

  lemma PassesConcat(a: string, b: string)
    ensures Passes(a + b) == Passes(a) + Passes(b)
  {
    var a1, b1 := ReplaceAll(a, '&', "&amp;"), ReplaceAll(b, '&', "&amp;");
    ReplaceAllConcat(a, b, '&', "&amp;");
    var a2, b2 := ReplaceAll(a1, '"', "&quot;"), ReplaceAll(b1, '"', "&quot;");
    ReplaceAllConcat(a1, b1, '"', "&quot;");
    var a3, b3 := ReplaceAll(a2, '<', "&lt;"), ReplaceAll(b2, '<', "&lt;");
    ReplaceAllConcat(a2, b2, '<', "&lt;");
    ReplaceAllConcat(a3, b3, '>', "&gt;");
  }

  lemma ReplaceSingle(c: char, rep: string)
    ensures ReplaceAll([c], c, rep) == rep
  {
    assert [c][1..] == [];
  }

  /** Later passes leave an earlier pass's entity alone. */
  lemma PassesChar(x: char)
    ensures Passes([x]) == Escape(x)
  {
    if x == '&' {
      PassesAmp();
    } else if x == '"' {
      PassesQuot();
    } else if x == '<' {
      PassesLt();
    } else if x == '>' {
      PassesGt();
    } else {
      ReplaceAllAbsent([x], '&', "&amp;");
      ReplaceAllAbsent([x], '"', "&quot;");
      ReplaceAllAbsent([x], '<', "&lt;");
      ReplaceAllAbsent([x], '>', "&gt;");
    }
  }

  /** A text holding none of the characters of the later passes comes through them unchanged. */
  lemma LaterPassesKeep(e: string, from: nat)
    requires 1 <= from <= 4
    requires forall k :: 0 <= k < |e| ==> (from <= 1 ==> e[k] != '"') && (from <= 2 ==> e[k] != '<') && e[k] != '>'
    ensures from == 1 ==> ReplaceAll(ReplaceAll(ReplaceAll(e, '"', "&quot;"), '<', "&lt;"), '>', "&gt;") == e
    ensures from == 2 ==> ReplaceAll(ReplaceAll(e, '<', "&lt;"), '>', "&gt;") == e
    ensures from == 3 ==> ReplaceAll(e, '>', "&gt;") == e
  {
    if from <= 1 { ReplaceAllAbsent(e, '"', "&quot;"); }
    if from <= 2 { ReplaceAllAbsent(e, '<', "&lt;"); }
    ReplaceAllAbsent(e, '>', "&gt;");
  }

  lemma PassesAmp()
    ensures Passes("&") == "&amp;"
  {
    ReplaceSingle('&', "&amp;");
    LaterPassesKeep("&amp;", 1);
  }

  lemma PassesQuot()
    ensures Passes("\"") == "&quot;"
  {
    ReplaceAllAbsent("\"", '&', "&amp;");
    ReplaceSingle('"', "&quot;");
    LaterPassesKeep("&quot;", 2);
  }

  lemma PassesLt()
    ensures Passes("<") == "&lt;"
  {
    ReplaceAllAbsent("<", '&', "&amp;");
    ReplaceAllAbsent("<", '"', "&quot;");
    ReplaceSingle('<', "&lt;");
    LaterPassesKeep("&lt;", 3);
  }

  lemma PassesGt()
    ensures Passes(">") == "&gt;"
  {
    ReplaceAllAbsent(">", '&', "&amp;");
    ReplaceAllAbsent(">", '"', "&quot;");
    ReplaceAllAbsent(">", '<', "&lt;");
    ReplaceSingle('>', "&gt;");
  }

  /** Running the four passes is escaping each character once. */
  lemma {:induction false} PassesSanitize(s: string)
    ensures Passes(s) == Sanitized(s)
    decreases |s|
  {
    if |s| == 0 {
      assert ReplaceAll(s, '&', "&amp;") == "";
    } else {
      assert s == [s[0]] + s[1..];
      PassesConcat([s[0]], s[1..]);
      PassesChar(s[0]);
      PassesSanitize(s[1..]);
    }
  }

  /** `sanitize`: the four `clean` passes; only the `&` pass skips past the
      `&` it inserts. */
  method SanitizeLabel(input: string) returns (s: string)
    ensures s == Sanitized(input)
  {
    s := Clean(input, '&', "&amp;", 1);
    s := Clean(s, '"', "&quot;", 0);
    s := Clean(s, '<', "&lt;", 0);
    s := Clean(s, '>', "&gt;", 0);
    PassesSanitize(input);
  }

  /** The output holds no double quote and no angle bracket. */
  lemma {:induction false} SanitizedSafe(s: string)
    ensures forall k :: 0 <= k < |Sanitized(s)| ==> Sanitized(s)[k] !in {'"', '<', '>'}
    decreases |s|
  {
    if |s| > 0 {
      SanitizedSafe(s[1..]);
      var e := Escape(s[0]);
      assert forall k :: 0 <= k < |e| ==> e[k] !in {'"', '<', '>'};
      assert Sanitized(s) == e + Sanitized(s[1..]);
    }
  }

  /** Text without `&`, `"`, `<` and `>` (single quotes and newlines
      included) comes out unchanged. */
  lemma {:induction false} SanitizedPlain(s: string)
    requires forall k :: 0 <= k < |s| ==> s[k] !in {'&', '"', '<', '>'}
    ensures Sanitized(s) == s
    decreases |s|
  {
    if |s| > 0 {
      SanitizedPlain(s[1..]);
    }
  }

  /** Decoding the four entities, the inverse of `Sanitized`. */
  function Unsanitize(t: string): string
    decreases |t|
  {
    if |t| == 0 then ""
    else if "&amp;" <= t then "&" + Unsanitize(t[5..])
    else if "&quot;" <= t then "\"" + Unsanitize(t[6..])
    else if "&lt;" <= t then "<" + Unsanitize(t[4..])
    else if "&gt;" <= t then ">" + Unsanitize(t[4..])
    else [t[0]] + Unsanitize(t[1..])
  }

  lemma {:induction false} UnsanitizeSanitized(s: string)
    ensures Unsanitize(Sanitized(s)) == s
    decreases |s|
  {
    if |s| > 0 {
      assert Sanitized(s) == Escape(s[0]) + Sanitized(s[1..]);
      UnsanitizeEscape(s[0], Sanitized(s[1..]));
      UnsanitizeSanitized(s[1..]);
      assert s == [s[0]] + s[1..];
    }
  }

  /** Decoding reads one character's entity back, whatever follows it. */
  lemma UnsanitizeEscape(x: char, rest: string)
    ensures Unsanitize(Escape(x) + rest) == [x] + Unsanitize(rest)
  {
    if x == '&' {
      UnsanitizeEntity("&amp;", x, rest);
    } else if x == '"' {
      UnsanitizeEntity("&quot;", x, rest);
    } else if x == '<' {
      UnsanitizeEntity("&lt;", x, rest);
    } else if x == '>' {
      UnsanitizeEntity("&gt;", x, rest);
    } else {
      var t := [x] + rest;
      assert t[0] == x && t[1..] == rest;
    }
  }

  lemma UnsanitizeEntity(e: string, x: char, rest: string)
    requires x in {'&', '"', '<', '>'} && e == Escape(x)
    ensures Unsanitize(e + rest) == [x] + Unsanitize(rest)
  {
    var t := e + rest;
    assert t[..|e|] == e && t[|e|..] == rest;
    assert t[1] == e[1];
  }

  // ---------------------------------------------------------------- the copy that stalls

  /** One iteration of the `clean` loop of the `sanitize` copy in
      `lemon_py/ParserImpl.cpp`, whose search resumes at the position it
      just replaced: the new text and the new position, or `None` when no
      `c` is left. */
  function CleanStepNoSkip(s: string, c: char, rep: string, res: nat): Option<(string, nat)> {
    match FindFrom(s, c, res)
    case None => None
    case Some(p) => Some((s[..p] + rep + s[p + 1..], p))
  }

  /** With `&` replaced by `&amp;` the next search finds the `&` just
      inserted, at the same position, so the loop never ends once the text
      holds an `&`. */
  lemma NoSkipStalls(s: string, res: nat)
    requires CleanStepNoSkip(s, '&', "&amp;", res).Some?
    ensures var (s1, p) := CleanStepNoSkip(s, '&', "&amp;", res).value;
      CleanStepNoSkip(s1, '&', "&amp;", p).Some? && CleanStepNoSkip(s1, '&', "&amp;", p).value.1 == p &&
      |CleanStepNoSkip(s1, '&', "&amp;", p).value.0| == |s1| + 4
  {
    var (s1, p) := CleanStepNoSkip(s, '&', "&amp;", res).value;
    assert s1[p] == '&';
  }

  /** The input `&` shows it: the first step leaves an `&` at the search position. */
  lemma NoSkipStallsOnAmpersand()
    ensures CleanStepNoSkip("&", '&', "&amp;", 0) == Some(("&amp;", 0))
    ensures CleanStepNoSkip("&amp;", '&', "&amp;", 0) == Some(("&amp;amp;", 0))
  {
    assert FindFrom("&", '&', 0) == Some(0);
    assert FindFrom("&amp;", '&', 0) == Some(0);
    assert "&"[..0] + "&amp;" + "&"[1..] == "&amp;";
    assert "&amp;"[..0] + "&amp;" + "&amp;"[1..] == "&amp;amp;";
  }
}
