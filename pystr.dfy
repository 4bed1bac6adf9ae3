/** The slice of Python's `str` semantics that the build scripts rely on:
    whitespace (`str.isspace`), `strip`, `find`, slicing with negative ends,
    `split()`, `split(c)`, `rsplit(sep, 1)`, `splitlines()`, `rjust`, `lower`,
    `join`, `startswith` and single-character `replace`. */
module PyStr {

  /** The Python exceptions the build scripts can raise. */
  datatype PyError =
    | RuntimeError(msg: string)
    | IndexError   // a list or string index past the end
    | TypeError    // unpacking or subscripting `None`

  /** `str.isspace` (and the regex class `\s` on `str` patterns): Unicode
      characters of category Zs or bidirectional class WS, B or S. */
  predicate IsSpace(c: char) {
    ('\t' <= c <= '\r') || ('\U{1C}' <= c <= ' ') || c == '\U{85}' || c == '\U{A0}'
    || c == '\U{1680}' || ('\U{2000}' <= c <= '\U{200A}') || c == '\U{2028}' || c == '\U{2029}'
    || c == '\U{202F}' || c == '\U{205F}' || c == '\U{3000}'
  }

  predicate AllSpace(s: string) {
    forall i :: 0 <= i < |s| ==> IsSpace(s[i])
  }

  /** Position `k` of an all-space slice `s[i..q]` is a space. */
  lemma AllSpaceAt(s: string, i: nat, q: nat, k: nat)
    ensures i <= k < q <= |s| && AllSpace(s[i..q]) ==> IsSpace(s[k])
  {
    if i <= k < q <= |s| {
      assert s[i..q][k - i] == s[k];
    }
  }

  predicate NoSpace(s: string) {
    forall i :: 0 <= i < |s| ==> !IsSpace(s[i])
  }

  /** A string `strip` leaves alone: empty, or with non-space ends. */
  predicate Stripped(s: string) {
    |s| == 0 || (!IsSpace(s[0]) && !IsSpace(s[|s| - 1]))
  }

  function Spaces(n: nat): (r: string)
    ensures |r| == n && AllSpace(r)
    ensures forall i :: 0 <= i < n ==> r[i] == ' '
  {
    if n == 0 then [] else [' '] + Spaces(n - 1)
  }

  // ---------------------------------------------------------------- strip

  /** `str.lstrip()`: drops the longest all-space prefix. */
  function LStrip(s: string): (r: string)
    ensures |r| <= |s| && r == s[|s| - |r|..]
    ensures AllSpace(s[..|s| - |r|])
    ensures |r| > 0 ==> !IsSpace(r[0])
  {
    if |s| > 0 && IsSpace(s[0]) then LStrip(s[1..]) else s
  }

  /** `str.rstrip()`: drops the longest all-space suffix. */
  function RStrip(s: string): (r: string)
    ensures |r| <= |s| && r == s[..|r|]
    ensures AllSpace(s[|r|..])
    ensures |r| > 0 ==> !IsSpace(r[|r| - 1])
  {
    if |s| > 0 && IsSpace(s[|s| - 1]) then RStrip(s[..|s| - 1]) else s
  }

  /** `str.strip()`. */
  function Strip(s: string): (r: string)
    ensures Stripped(r)
  {
    RStrip(LStrip(s))
  }

  lemma {:induction false} LStripPadded(a: string, t: string)
    requires AllSpace(a) && (|t| == 0 || !IsSpace(t[0]))
    ensures LStrip(a + t) == t
    decreases |a|
  {
    if |a| > 0 {
      assert (a + t)[1..] == a[1..] + t;
      LStripPadded(a[1..], t);
    } else {
      assert a + t == t;
    }
  }

  lemma {:induction false} RStripPadded(t: string, b: string)
    requires AllSpace(b) && (|t| == 0 || !IsSpace(t[|t| - 1]))
    ensures RStrip(t + b) == t
    decreases |b|
  {
    if |b| > 0 {
      assert (t + b)[..|t + b| - 1] == t + b[..|b| - 1];
      RStripPadded(t, b[..|b| - 1]);
    } else {
      assert t + b == t;
    }
  }

  /** Stripping a stripped text framed by whitespace gives the text back. */
  lemma StripPadded(a: string, t: string, b: string)
    requires AllSpace(a) && AllSpace(b) && Stripped(t)
    ensures Strip(a + t + b) == t
  {
    if |t| == 0 {
      assert a + t + b == a + b;
      LStripPadded(a + b, []);
      assert a + b + [] == a + b;
    } else {
      assert a + t + b == a + (t + b);
      LStripPadded(a, t + b);
      RStripPadded(t, b);
    }
  }

  lemma StrippedFixed(t: string)
    requires Stripped(t)
    ensures Strip(t) == t
  {
    StripPadded([], t, []);
    assert [] + t + [] == t;
  }

  // ---------------------------------------------------------------- slicing and find

  /** A Python index `i` (possibly negative) normalised against length `n`, clamped to [0, n]. */
  function Clamp(i: int, n: nat): (r: nat)
    ensures r <= n
    ensures 0 <= i <= n ==> r == i
    ensures i < 0 && i + n >= 0 ==> r == i + n
  {
    if i < 0 then (if i + n < 0 then 0 else i + n) else if i > n then n else i
  }

  /** The Python slice `s[a:b]`. */
  function Slice(s: string, a: int, b: int): (r: string)
    ensures 0 <= a <= b <= |s| ==> r == s[a..b]
    ensures 0 <= a <= |s| && b == -1 && a < |s| ==> r == s[a..|s| - 1]
  {
    var i := Clamp(a, |s|);
    var j := Clamp(b, |s|);
    if i < j then s[i..j] else []
  }

  predicate OccursAt(s: string, pat: string, i: nat) {
    i + |pat| <= |s| && s[i..i + |pat|] == pat
  }

  /** `s.find(pat, start)`: the first occurrence at or after `start`, or -1. */
  function FindFrom(s: string, pat: string, start: nat): (r: int)
    requires start <= |s|
    ensures r == -1 || (start <= r && OccursAt(s, pat, r))
    ensures forall i :: start <= i && (r == -1 || i < r) ==> !OccursAt(s, pat, i)
    decreases |s| - start
  {
    if OccursAt(s, pat, start) then start
    else if start < |s| then FindFrom(s, pat, start + 1)
    else -1
  }

  /** `s.find(pat)`. */
  function Find(s: string, pat: string): (r: int)
    ensures r == -1 || (0 <= r && OccursAt(s, pat, r))
    ensures forall i: nat :: r == -1 || i < r ==> !OccursAt(s, pat, i)
  {
    FindFrom(s, pat, 0)
  }

  /** The last occurrence of `pat` in `s`, if any (`str.rfind`). */
  function RFindFrom(s: string, pat: string, end: nat): (r: int)
    requires end <= |s|
    ensures r == -1 || (0 <= r <= end && OccursAt(s, pat, r))
    ensures forall i: nat :: i <= end && (r == -1 || r < i) ==> !OccursAt(s, pat, i)
    decreases end
  {
    if OccursAt(s, pat, end) then end
    else if end > 0 then RFindFrom(s, pat, end - 1)
    else -1
  }

  /** `s.rsplit(sep, 1)` when it has two parts, `None` when `sep` does not occur. */
  function RSplit1(s: string, sep: string): (r: Option2)
    ensures r.Split? <==> exists i: nat :: OccursAt(s, sep, i)
    ensures r.Split? ==> s == r.before + sep + r.after
  {
    var i := RFindFrom(s, sep, |s|);
    if i < 0 then Whole
    else
      assert s == s[..i] + sep + s[i + |sep|..] by {
        assert s == s[..i] + s[i..i + |sep|] + s[i + |sep|..];
      }
      Split(s[..i], s[i + |sep|..])
  }

  /** The outcome of splitting in two: the separator was found, or not. */
  datatype Option2 = Whole | Split(before: string, after: string)

  lemma RSplit1AfterHasNoSep(s: string, sep: string)
    requires |sep| > 0
    ensures var r := RSplit1(s, sep);
      r.Split? ==> forall i: nat :: !OccursAt(r.after, sep, i)
  {
    var r := RSplit1(s, sep);
    if r.Split? {
      var k := RFindFrom(s, sep, |s|);
      forall i: nat | OccursAt(r.after, sep, i)
        ensures false
      {
        assert s[k + |sep| + i..k + |sep| + i + |sep|] == r.after[i..i + |sep|];
        assert OccursAt(s, sep, k + |sep| + i);
      }
    }
  }

  function StartsWith(s: string, p: string): bool {
    |p| <= |s| && s[..|p|] == p
  }

  function EndsWith(s: string, p: string): bool {
    |p| <= |s| && s[|s| - |p|..] == p
  }

  lemma EndsWithConcat(a: string, b: string)
    ensures EndsWith(a + b, b)
  {
    assert (a + b)[|a + b| - |b|..] == b;
  }

  /** A text made of a head, a middle and a tail starts with the head and ends with the tail. */
  lemma Framed(a: string, m: string, b: string, out: string)
    requires out == a + m + b
    ensures StartsWith(out, a) && EndsWith(out, b)
  {
    assert out[..|a|] == a;
    assert out[|out| - |b|..] == b;
  }

  lemma EndsWithTrans(s: string, e: string, t: string)
    requires EndsWith(s, e) && EndsWith(e, t)
    ensures EndsWith(s, t)
  {
    assert s[|s| - |t|..] == s[|s| - |e|..][|e| - |t|..];
  }

  /** The character `i` places into a suffix of `e` is where it sits in `s`. */
  lemma EndsWithAt(s: string, e: string, i: nat)
    requires i < |e| <= |s|
    ensures EndsWith(s, e) ==> s[|s| - |e| + i] == e[i]
  {
    assert s[|s| - |e|..][i] == s[|s| - |e| + i];
  }

  /** Texts whose last characters before a common suffix differ do not end with each other. */
  lemma DistinctBeforeSuffix(s: string, x: char, e: string, y: char, suffix: string)
    requires x != y && EndsWith(s, [x] + suffix) && EndsWith(e, [y] + suffix)
    ensures !EndsWith(s, e)
  {
    var n := |suffix|;
    EndsWithAt(s, [x] + suffix, 0);
    EndsWithAt(e, [y] + suffix, 0);
    if |e| <= |s| {
      EndsWithAt(s, e, |e| - n - 1);
    }
  }

  /** The slice `s[1:]`. */
  function Tail(s: string): (r: string)
    ensures |s| > 0 ==> r == s[1..]
  {
    if |s| == 0 then [] else s[1..]
  }

  /** The first index of `c` is `i` when `s[i]` is the first `c`. */
  lemma FindFirstChar(s: string, c: char, i: nat)
    requires i < |s| && s[i] == c && c !in s[..i]
    ensures Find(s, [c]) == i
  {
    assert OccursAt(s, [c], i);
    assert forall k :: 0 <= k < i ==> !OccursAt(s, [c], k) by {
      forall k | 0 <= k < i ensures !OccursAt(s, [c], k) {
        assert s[..i][k] == s[k];
        assert s[k..k + 1][0] == s[k];
      }
    }
  }

  /** `re.sub('\s+', '', s)`: every whitespace character removed. */
  function RemoveSpace(s: string): (r: string)
    ensures NoSpace(r) && |r| <= |s|
    ensures NoSpace(s) ==> r == s
  {
    if |s| == 0 then [] else (if IsSpace(s[0]) then [] else [s[0]]) + RemoveSpace(s[1..])
  }

  // ---------------------------------------------------------------- split

  /** The maximal prefix without whitespace. */
  function TakeWord(s: string): (w: string)
    ensures |w| <= |s| && w == s[..|w|] && NoSpace(w)
    ensures |w| < |s| ==> IsSpace(s[|w|])
  {
    if |s| == 0 || IsSpace(s[0]) then [] else [s[0]] + TakeWord(s[1..])
  }

  /** `str.split()` with no separator: the maximal runs of non-whitespace. */
  function Words(s: string): (r: seq<string>)
    ensures forall k :: 0 <= k < |r| ==> |r[k]| > 0 && NoSpace(r[k])
    decreases |s|
  {
    var t := LStrip(s);
    if |t| == 0 then []
    else
      var w := TakeWord(t);
      ConsWord(w, Words(t[|w|..]))
  }

  /** A word in front of words. */
  function ConsWord(w: string, rest: seq<string>): (r: seq<string>)
    requires |w| > 0 && NoSpace(w) && forall k :: 0 <= k < |rest| ==> |rest[k]| > 0 && NoSpace(rest[k])
    ensures r == [w] + rest
    ensures forall k :: 0 <= k < |r| ==> |r[k]| > 0 && NoSpace(r[k])
  {
    [w] + rest
  }

  lemma WordsOfWord(w: string, rest: string)
    requires |w| > 0 && NoSpace(w) && (|rest| == 0 || IsSpace(rest[0]))
    ensures Words(w + rest) == [w] + Words(rest)
  {
    LStripPadded([], w + rest);
    assert [] + (w + rest) == w + rest;
    TakeWordOf(w, rest);
    assert (w + rest)[|w|..] == rest;
  }

  lemma {:induction false} TakeWordOf(w: string, rest: string)
    requires NoSpace(w) && (|rest| == 0 || IsSpace(rest[0]))
    ensures TakeWord(w + rest) == w
    decreases |w|
  {
    if |w| > 0 {
      assert (w + rest)[1..] == w[1..] + rest;
      TakeWordOf(w[1..], rest);
    } else {
      assert w + rest == rest;
    }
  }

  lemma {:induction false} LStripBlank(s: string)
    ensures AllSpace(s) ==> LStrip(s) == []
    decreases |s|
  {
    if |s| > 0 && IsSpace(s[0]) {
      LStripBlank(s[1..]);
      assert AllSpace(s) ==> AllSpace(s[1..]) by {
        forall i | 0 <= i < |s| - 1 ensures s[1..][i] == s[i + 1] {}
      }
    }
  }

  /** A word followed only by whitespace splits into that word. */
  lemma OneWord(w: string, b: string)
    requires |w| > 0 && NoSpace(w) && AllSpace(b)
    ensures Words(w + b) == [w]
  {
    assert Words(b) == [] by { LStripBlank(b); }
    WordsOfWord(w, b);
  }

  /** A word and whitespace in front of a text add that word in front of the text's words. */
  lemma WordThenSpace(w: string, a: string, rest: string)
    requires |w| > 0 && NoSpace(w) && |a| > 0 && AllSpace(a)
    ensures Words(w + a + rest) == [w] + Words(rest)
  {
    assert w + a + rest == w + (a + rest);
    assert Words(a + rest) == Words(rest) by { WordsOfSpaces(a, rest); }
    WordsOfWord(w, a + rest);
  }

  lemma WordsOfSpaces(a: string, rest: string)
    requires AllSpace(a)
    ensures Words(a + rest) == Words(rest)
  {
    LStripSpaces(a, rest);
  }

  lemma {:induction false} LStripSpaces(a: string, rest: string)
    requires AllSpace(a)
    ensures LStrip(a + rest) == LStrip(rest)
    decreases |a|
  {
    if |a| > 0 {
      assert (a + rest)[1..] == a[1..] + rest;
      LStripSpaces(a[1..], rest);
    } else {
      assert a + rest == rest;
    }
  }

  /** `s.split(c)` for a one-character separator. */
  function SplitOn(s: string, c: char): (r: seq<string>)
    ensures |r| >= 1
    ensures forall k :: 0 <= k < |r| ==> c !in r[k]
    ensures JoinWith(r, [c]) == s
    decreases |s|
  {
    var i := FindFrom(s, [c], 0);
    if i < 0 then
      assert forall k :: 0 <= k < |s| ==> s[k] != c by {
        forall k | 0 <= k < |s| ensures s[k] != c { assert !OccursAt(s, [c], k); }
      }
      [s]
    else
      assert s[i] == c by { assert s[i..i + 1] == [c]; }
      assert forall k :: 0 <= k < i ==> s[k] != c by {
        forall k | 0 <= k < i ensures s[k] != c { assert !OccursAt(s, [c], k); }
      }
      var rest := SplitOn(s[i + 1..], c);
      assert s == s[..i] + [c] + s[i + 1..];
      [s[..i]] + rest
  }

  /** `sep.join(parts)`. */
  function JoinWith(parts: seq<string>, sep: string): (r: string)
    ensures |parts| == 1 ==> r == parts[0]
  {
    if |parts| == 0 then []
    else if |parts| == 1 then parts[0]
    else parts[0] + sep + JoinWith(parts[1..], sep)
  }

  lemma JoinWithCons(p: string, parts: seq<string>, sep: string)
    requires |parts| > 0
    ensures JoinWith([p] + parts, sep) == p + sep + JoinWith(parts, sep)
  {
    assert ([p] + parts)[1..] == parts;
  }

  /** Concatenation of a list of strings (`"".join(parts)`). */
  function Concat(parts: seq<string>): (r: string)
    ensures |parts| == 0 ==> r == []
  {
    if |parts| == 0 then [] else parts[0] + Concat(parts[1..])
  }

  lemma {:induction false} ConcatAppend(parts: seq<string>, p: string)
    ensures Concat(parts + [p]) == Concat(parts) + p
  {
    if |parts| == 0 {
      assert parts + [p] == [p];
    } else {
      assert (parts + [p])[1..] == parts[1..] + [p];
      ConcatAppend(parts[1..], p);
    }
  }

  // ---------------------------------------------------------------- splitlines

  /** The line boundaries of `str.splitlines`. */
  predicate IsLineBreak(c: char) {
    c == '\n' || c == '\r' || c == '\U{0B}' || c == '\U{0C}' || c == '\U{1C}' || c == '\U{1D}'
    || c == '\U{1E}' || c == '\U{85}' || c == '\U{2028}' || c == '\U{2029}'
  }

  predicate NoLineBreak(s: string) {
    forall i :: 0 <= i < |s| ==> !IsLineBreak(s[i])
  }

  /** The maximal prefix without a line boundary. */
  function TakeLine(s: string): (l: string)
    ensures |l| <= |s| && l == s[..|l|] && NoLineBreak(l)
    ensures |l| < |s| ==> IsLineBreak(s[|l|])
  {
    if |s| == 0 || IsLineBreak(s[0]) then [] else [s[0]] + TakeLine(s[1..])
  }

  /** `str.splitlines()`: `\r\n` is one boundary, a final boundary opens no extra line. */
  function SplitLines(s: string): (r: seq<string>)
    ensures forall k :: 0 <= k < |r| ==> NoLineBreak(r[k])
    ensures |s| == 0 <==> |r| == 0
    decreases |s|
  {
    if |s| == 0 then []
    else
      var l := TakeLine(s);
      if |l| == |s| then [s]
      else
        var next := if s[|l|] == '\r' && |l| + 1 < |s| && s[|l| + 1] == '\n' then |l| + 2 else |l| + 1;
        [l] + SplitLines(s[next..])
  }

  /** Lines terminated by `\n` split back into the same lines. */
  lemma {:induction false} SplitLinesOfLines(lines: seq<string>)
    requires forall k :: 0 <= k < |lines| ==> NoLineBreak(lines[k])
    ensures SplitLines(Concat(Terminated(lines))) == lines
  {
    if |lines| > 0 {
      var l := lines[0];
      var rest := Concat(Terminated(lines[1..]));
      assert Terminated(lines)[1..] == Terminated(lines[1..]);
      assert Concat(Terminated(lines)) == l + "\n" + rest;
      TakeLineOf(l, "\n" + rest);
      assert l + "\n" + rest == l + ("\n" + rest);
      assert (l + "\n" + rest)[|l| + 1..] == rest;
      SplitLinesOfLines(lines[1..]);
    }
  }

  function Terminated(lines: seq<string>): (r: seq<string>)
    ensures |r| == |lines|
    ensures forall k :: 0 <= k < |lines| ==> r[k] == lines[k] + "\n"
  {
    if |lines| == 0 then [] else [lines[0] + "\n"] + Terminated(lines[1..])
  }

  lemma {:induction false} TakeLineOf(l: string, rest: string)
    requires NoLineBreak(l) && (|rest| == 0 || IsLineBreak(rest[0]))
    ensures TakeLine(l + rest) == l
    decreases |l|
  {
    if |l| > 0 {
      assert (l + rest)[1..] == l[1..] + rest;
      TakeLineOf(l[1..], rest);
    } else {
      assert l + rest == rest;
    }
  }

  // ---------------------------------------------------------------- rjust, lower, replace

  /** `s.rjust(width)`: left-padded with spaces to `width`, unchanged when already as wide. */
  function RJust(s: string, width: int): (r: string)
    ensures |r| == if width <= |s| then |s| else width
    ensures r[|r| - |s|..] == s && AllSpace(r[..|r| - |s|])
  {
    if width <= |s| then s else Spaces(width - |s|) + s
  }

  /** Dropping the first character of a non-empty head. */
  lemma TailOfAppend(a: string, rest: string)
    requires |a| > 0
    ensures (a + rest)[1..] == a[1..] + rest
  {
  }

  /** Right-justifying to a width at least as large as the text pads it with `width - |s|` spaces. */
  lemma RJustPads(s: string, width: int)
    requires width >= |s|
    ensures RJust(s, width) == Spaces(width - |s|) + s
  {
    if width == |s| {
      assert Spaces(0) + s == s;
    }
  }

  function LowerChar(c: char): char {
    if 'A' <= c <= 'Z' then (c as int + 32) as char else c
  }

  /** `str.lower()` on ASCII letters; every other character is kept. */
  function Lower(s: string): (r: string)
    ensures |r| == |s|
    ensures forall i :: 0 <= i < |s| ==> r[i] == LowerChar(s[i])
  {
    if |s| == 0 then [] else [LowerChar(s[0])] + Lower(s[1..])
  }

  /** `s.replace(c, r)` for a one-character `c`: every `c` becomes `r`. */
  function Replace(s: string, c: char, r: string): (out: string)
    ensures c !in r ==> c !in out
  {
    if |s| == 0 then []
    else (if s[0] == c then r else [s[0]]) + Replace(s[1..], c, r)
  }

  function Count(s: string, c: char): (n: nat)
    ensures n <= |s|
    ensures n == 0 <==> c !in s
  {
    if |s| == 0 then 0 else (if s[0] == c then 1 else 0) + Count(s[1..], c)
  }

  lemma {:induction false} ReplaceAppend(a: string, b: string, c: char, r: string)
    ensures Replace(a + b, c, r) == Replace(a, c, r) + Replace(b, c, r)
    decreases |a|
  {
    if |a| == 0 {
      assert a + b == b;
    } else {
      assert (a + b)[1..] == a[1..] + b;
      ReplaceAppend(a[1..], b, c, r);
    }
  }

  lemma {:induction false} CountAppend(a: string, b: string, c: char)
    ensures Count(a + b, c) == Count(a, c) + Count(b, c)
    decreases |a|
  {
    if |a| == 0 {
      assert a + b == b;
    } else {
      assert (a + b)[1..] == a[1..] + b;
      CountAppend(a[1..], b, c);
    }
  }

  /** Stripping adds no character. */
  lemma StripKeepsOut(s: string, c: char)
    requires c !in s
    ensures c !in Strip(s)
  {
    var l := LStrip(s);
    assert forall i :: 0 <= i < |l| ==> l[i] == s[|s| - |l| + i];
    var r := RStrip(l);
    assert forall i :: 0 <= i < |r| ==> r[i] == l[i];
  }
}
