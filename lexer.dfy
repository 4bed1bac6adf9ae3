/** The runtime `Lexer` of `lemon_py/ParserImpl.cpp`: a cursor over the
    input that counts lines as it moves, skips what the skip patterns match,
    and then tries a quoted string, a literal from the prefix tree and the
    value patterns, in that order. The regular-expression engine is not
    modelled: a `Matcher` says what a pattern matches when anchored at a
    position (`match_continuous`). The static tables the generated
    `_init_lexer` fills are a `Rules` value fixed at construction. */
module Lexer {
  import opened Wrappers
  import opened PrefixTree
  import opened StringTable

  // ---------------------------------------------------------------- tokens, rules, matcher

  /** `Token`: its type code, the string-table index of its value (`None`
      for a token without a value table, such as a literal or the end of
      input), and the line it was made on. */
  datatype Token = Token(kind: int, valueIndex: Option<nat>, line: int)

  /** A successful anchored match: the length of the whole match, and the
      text of the whole match followed by the text of each sub-match. */
  datatype RegexMatch = RegexMatch(length: nat, groups: seq<string>)

  /** The regular-expression engine: what `regex_search` with
      `match_continuous` finds for a pattern in the input at a position. */
  type Matcher = (string, string, nat) -> Option<RegexMatch>

  /** A match never runs past the end of the input. */
  ghost predicate MatcherFits(matcher: Matcher) {
    forall pattern: string, s: string, pos: nat ::
      pos <= |s| && matcher(pattern, s, pos).Some? ==> pos + matcher(pattern, s, pos).value.length <= |s|
  }

  /** The static members of `Lexer`: the literal prefix tree, the skip
      patterns and value patterns in the order added, and the token codes of
      single- and double-quoted strings (0 when there are none). */
  datatype Rules = Rules(literals: PTNode, skips: seq<string>, valueTypes: seq<(string, int)>, singleQuoteToken: int, doubleQuoteToken: int)

  /** What makes `next` fail: a string without its closing delimiter (a
      `runtime_error`), or a skip loop that would repeat for ever because a
      skip pattern matches the empty string at the cursor. */
  datatype LexError = UnterminatedString | SkipNeverEnds

  /** The token value of a value pattern: the first sub-match when the
      pattern has one, else the whole match. */
  function MatchValue(m: RegexMatch): string {
    if |m.groups| > 1 then m.groups[1] else if |m.groups| == 1 then m.groups[0] else ""
  }

  // ---------------------------------------------------------------- line counting

  /** The number of newline characters in `s`. */
  function Newlines(s: string): nat
    decreases |s|
  {
    if |s| == 0 then 0 else (if s[0] == '\n' then 1 else 0) + Newlines(s[1..])
  }

  lemma {:induction false} NewlinesConcat(a: string, b: string)
    ensures Newlines(a + b) == Newlines(a) + Newlines(b)
    decreases |a|
  {
    if |a| == 0 {
      assert a + b == b;
    } else {
      assert (a + b)[0] == a[0] && (a + b)[1..] == a[1..] + b;
      NewlinesConcat(a[1..], b);
    }
  }

  /** Counting the newlines of a range in two pieces. */
  lemma NewlinesSplit(s: string, i: nat, j: nat, k: nat)
    requires i <= j <= k <= |s|
    ensures Newlines(s[i..k]) == Newlines(s[i..j]) + Newlines(s[j..k])
  {
    assert s[i..k] == s[i..j] + s[j..k];
    NewlinesConcat(s[i..j], s[j..k]);
  }

  // ---------------------------------------------------------------- string ends

  /** Where a string body ends (relative to its start `t`): the first
      delimiter not taken by an escape, where a backslash takes a following
      delimiter or backslash with it; `None` when the input ends first. The
      guard `1 < |t|` stands for the check the C++ code leaves out. */
  function ScanString(t: string, delim: char): (r: Option<nat>)
    ensures r.Some? ==> r.value < |t| && t[r.value] == delim
    decreases |t|
  {
    if |t| == 0 then None
    else if t[0] == '\\' then
      if 1 < |t| && (t[1] == delim || t[1] == '\\') then
        match ScanString(t[2..], delim)
        case None => None
        case Some(e) => Some(e + 2)
      else
        match ScanString(t[1..], delim)
        case None => None
        case Some(e) => Some(e + 1)
    else if t[0] == delim then Some(0)
    else
      match ScanString(t[1..], delim)
      case None => None
      case Some(e) => Some(e + 1)
  }

  /** The outcomes of `stringEnd` as written. */
  datatype ScanOutcome = EndsAt(pos: nat) | ReachesEnd | ReadsPastEnd

  /** `stringEnd` as written: after a backslash it reads the next character
      even when the backslash is the last character of the input. */
  function StringEndAsWritten(t: string, delim: char): ScanOutcome
    decreases |t|
  {
    if |t| == 0 then ReachesEnd
    else if t[0] == '\\' then
      if |t| == 1 then ReadsPastEnd
      else if t[1] == delim || t[1] == '\\' then
        match StringEndAsWritten(t[2..], delim)
        case EndsAt(e) => EndsAt(e + 2)
        case other => other
      else
        match StringEndAsWritten(t[1..], delim)
        case EndsAt(e) => EndsAt(e + 1)
        case other => other
    else if t[0] == delim then EndsAt(0)
    else
      match StringEndAsWritten(t[1..], delim)
      case EndsAt(e) => EndsAt(e + 1)
      case other => other
  }

  /** Where the C++ scan stays inside the input it agrees with the guarded one. */
  lemma {:induction false} AsWrittenAgrees(t: string, delim: char)
    requires StringEndAsWritten(t, delim) != ReadsPastEnd
    ensures StringEndAsWritten(t, delim) == match ScanString(t, delim) case None => ReachesEnd case Some(e) => EndsAt(e)
    decreases |t|
  {
    if |t| > 0 {
      if t[0] == '\\' && (t[1] == delim || t[1] == '\\') {
        AsWrittenAgrees(t[2..], delim);
      } else if t[0] == '\\' || t[0] != delim {
        AsWrittenAgrees(t[1..], delim);
      }
    }
  }

  /** An input that ends in a backslash inside a string: `stringEnd` reads
      the character after the end of the input. */
  lemma StringEndReadsPastEnd()
    ensures StringEndAsWritten("ab\\", '"') == ReadsPastEnd
    ensures ScanString("ab\\", '"') == None
  {
    assert "ab\\"[1..] == "b\\" && "b\\"[1..] == "\\";
  }

  /** A string body written with escapes: each backslash doubled and each
      delimiter preceded by a backslash. */
  function EscapeBody(b: string, delim: char): string
    decreases |b|
  {
    if |b| == 0 then ""
    else (if b[0] == '\\' || b[0] == delim then ['\\', b[0]] else [b[0]]) + EscapeBody(b[1..], delim)
  }

  /** The end of an escaped body is found exactly at its closing delimiter,
      whatever follows it. */
  lemma {:induction false} ScanEscaped(b: string, delim: char, rest: string)
    requires delim != '\\'
    ensures ScanString(EscapeBody(b, delim) + [delim] + rest, delim) == Some(|EscapeBody(b, delim)|)
    decreases |b|
  {
    var t := EscapeBody(b, delim) + [delim] + rest;
    if |b| == 0 {
      assert t[0] == delim;
    } else {
      var tail := EscapeBody(b[1..], delim) + [delim] + rest;
      ScanEscaped(b[1..], delim, rest);
      if b[0] == '\\' || b[0] == delim {
        assert t == ['\\', b[0]] + tail;
        assert t[2..] == tail;
      } else {
        assert t == [b[0]] + tail;
        assert t[1..] == tail;
      }
    }
  }

  // ---------------------------------------------------------------- the lexer

  class Lexer {
    const input: string
    var curPos: nat
    const stringTable: StringTable
    var count: int
    var reachedEnd: bool
    var line: int
    const rules: Rules
    const matcher: Matcher

    /** The cursor is in the input, `line` is one more than the newlines
        before the cursor, and the end has been reported only at the end. */
    ghost predicate Valid()
      reads this, stringTable
    {
      curPos <= |input| && line == 1 + Newlines(input[..curPos]) &&
      (reachedEnd ==> curPos == |input|) && 0 <= count &&
      stringTable.Valid() && MatcherFits(matcher)
    }

    constructor(inputString: string, table: StringTable, rules: Rules, matcher: Matcher)
      requires table.Valid() && MatcherFits(matcher)
      ensures Valid()
      ensures input == inputString && stringTable == table && this.rules == rules && this.matcher == matcher
      ensures curPos == 0 && line == 1 && count == 0 && !reachedEnd
    {
      input := inputString;
      curPos := 0;
      stringTable := table;
      count := 0;
      reachedEnd := false;
      line := 1;
      this.rules := rules;
      this.matcher := matcher;
      new;
      assert input[..0] == [];
    }

    /** `countLines`. */
    method CountLines(from: nat, to: nat) returns (lineCount: nat)
      requires from <= to <= |input|
      ensures lineCount == Newlines(input[from..to])
    {
      lineCount := 0;
      var i := from;
      assert input[from..from] == [];
      while i != to
        invariant from <= i <= to
        invariant lineCount == Newlines(input[from..i])
      {
        NewlinesSplit(input, from, i, i + 1);
        assert input[i..i + 1] == [input[i]];
        if input[i] == '\n' {
          lineCount := lineCount + 1;
        }
        i := i + 1;
      }
    }

    /** `advanceTo`: moves the cursor forward to `newPos`, counting the lines
        passed, and returns the old position. */
    method AdvanceTo(newPos: nat) returns (oldPos: nat)
      requires Valid() && curPos <= newPos <= |input|
      modifies this
      ensures Valid()
      ensures oldPos == old(curPos) && curPos == newPos
      ensures line == old(line) + Newlines(input[oldPos..newPos])
      ensures count == old(count) && reachedEnd == old(reachedEnd)
    {
      oldPos := curPos;
      var passed := CountLines(oldPos, newPos);
      NewlinesSplit(input, 0, oldPos, newPos);
      assert input[0..oldPos] == input[..oldPos] && input[0..newPos] == input[..newPos];
      curPos := newPos;
      line := line + passed;
    }

    /** `advanceBy`: `std::advance` by `n`, which the C++ code does not
        check against the end, then the line count. */
    method AdvanceBy(n: nat) returns (oldPos: nat)
      requires Valid() && curPos + n <= |input|
      modifies this
      ensures Valid()
      ensures oldPos == old(curPos) && curPos == old(curPos) + n
      ensures line == old(line) + Newlines(input[oldPos..curPos])
      ensures count == old(count) && reachedEnd == old(reachedEnd)
    {
      oldPos := AdvanceTo(curPos + n);
    }

    /** `consumedInput`. */
    predicate ConsumedInput()
      reads this
    {
      curPos == |input|
    }

    /** `remainder(len)`: the rest of the input, or its first `len`
        characters when `len` is non-zero and stops short of the end. */
    function Remainder(len: nat): (r: string)
      reads this
      requires curPos <= |input|
      ensures |r| == if len != 0 && curPos + len < |input| then len else |input| - curPos
      ensures r <= input[curPos..]
    {
      input[curPos..if len != 0 && curPos + len < |input| then curPos + len else |input|]
    }

    // ------------------------------------------------------------ skip

    /** One pass of the `for` loop of `skip` over the skip patterns from
        index `i`: whether one matched, and where the cursor ends. */
    ghost function PassFrom(i: nat, pos: nat): (r: (bool, nat))
      requires pos <= |input| && MatcherFits(matcher)
      ensures pos <= r.1 <= |input|
      ensures !r.0 ==> r.1 == pos
      decreases |rules.skips| - i
    {
      if i >= |rules.skips| then (false, pos)
      else match matcher(rules.skips[i], input, pos)
        case Some(m) => (true, PassFrom(i + 1, pos + m.length).1)
        case None => PassFrom(i + 1, pos)
    }

    /** Where `skip` leaves the cursor: it repeats passes while one matched.
        A pass that matched but did not move the cursor would be repeated
        for ever, which is `None`. */
    ghost function SkipTo(pos: nat): (r: Option<nat>)
      requires pos <= |input| && MatcherFits(matcher)
      ensures r.Some? ==> pos <= r.value <= |input| && !PassFrom(0, r.value).0
      decreases |input| - pos
    {
      var (skipped, next) := PassFrom(0, pos);
      if !skipped then Some(pos)
      else if next == pos then None
      else SkipTo(next)
    }

    /** One pass of `skip`. */
    method SkipPass() returns (skipped: bool)
      requires Valid()
      modifies this
      ensures Valid()
      ensures (skipped, curPos) == PassFrom(0, old(curPos))
      ensures count == old(count) && reachedEnd == old(reachedEnd)
    {
      skipped := false;
      var i := 0;
      ghost var start := curPos;
      while i < |rules.skips|
        invariant Valid() && i <= |rules.skips| && start <= curPos
        invariant PassFrom(0, start) == (skipped || PassFrom(i, curPos).0, PassFrom(i, curPos).1)
        invariant count == old(count) && reachedEnd == old(reachedEnd)
      {
        var m := matcher(rules.skips[i], input, curPos);
        if m.Some? {
          skipped := true;
          var _ := AdvanceBy(m.value.length);
        }
        i := i + 1;
      }
    }

    /** `skip`. Where the C++ loop would repeat for ever, the model stops and
        reports it. */
    method Skip() returns (loops: bool)
      requires Valid()
      modifies this
      ensures Valid()
      ensures old(curPos) <= curPos
      ensures loops <==> SkipTo(old(curPos)).None?
      ensures !loops ==> curPos == SkipTo(old(curPos)).value
      ensures count == old(count) && reachedEnd == old(reachedEnd)
    {
      var skipped := true;
      ghost var start := curPos;
      while skipped
        invariant Valid() && start <= curPos
        invariant skipped ==> SkipTo(start) == SkipTo(curPos)
        invariant !skipped ==> SkipTo(start) == Some(curPos)
        invariant count == old(count) && reachedEnd == old(reachedEnd)
        decreases |input| - curPos + (if skipped then 1 else 0)
      {
        var before := curPos;
        skipped := SkipPass();
        if skipped && curPos == before {
          return true;
        }
      }
      return false;
    }

    // ------------------------------------------------------------ strings

    /** `stringEnd` from `stringStart` to the end of the input, with the
        read after a trailing backslash guarded. */
    method StringEnd(stringDelim: char, stringStart: nat) returns (r: Option<nat>)
      requires stringStart <= |input|
      ensures r == Shifted(ScanString(input[stringStart..], stringDelim), stringStart)
    {
      var i := stringStart;
      while i < |input|
        invariant stringStart <= i <= |input|
        invariant Shifted(ScanString(input[stringStart..], stringDelim), stringStart) == Shifted(ScanString(input[i..], stringDelim), i)
        decreases |input| - i
      {
        ScanStep(input, i, stringDelim);
        if input[i] == '\\' {
          if i + 1 < |input| && (input[i + 1] == stringDelim || input[i + 1] == '\\') {
            i := i + 1;
          }
        } else if input[i] == stringDelim {
          return Some(i);
        }
        i := i + 1;
      }
      assert input[i..] == [];
      return None;
    }

    /** The string table keeps every earlier entry at its index and has
        gained at most one string since it held `before`. */
    ghost predicate TableExtends(before: seq<string>)
      reads stringTable
    {
      before <= stringTable.strings && |stringTable.strings| <= |before| + 1
    }

    /** A string of kind `tokCode` opens at `pos`: the kind exists (its
        code is not 0) and its delimiter is the character there. */
    predicate Opens(tokCode: int, delim: char, pos: nat)
      reads this
      requires pos < |input|
    {
      tokCode != 0 && input[pos] == delim
    }

    /** The outcome of a string opening at `start`: without a closing
        delimiter the unterminated-string error with the cursor left at
        `start`; otherwise a token of kind `tokCode` on the current line,
        whose value is the raw text between the delimiters, with the cursor
        just past the closing delimiter. */
    ghost predicate Quoted(tokCode: int, delim: char, start: nat, r: Result<Option<Token>, LexError>)
      reads this, stringTable
      requires start < |input|
    {
      match ScanString(input[start + 1..], delim)
      case None => r == Err(UnterminatedString) && curPos == start
      case Some(e) =>
        curPos == start + e + 2 && r.Ok? && r.value.Some? && r.value.value.kind == tokCode && r.value.value.line == line &&
        r.value.value.valueIndex.Some? && r.value.value.valueIndex.value < |stringTable.strings| &&
        stringTable.GetString(r.value.value.valueIndex.value) == input[start + 1..start + e + 1]
    }

    /** The token a string delimiter starts, for one of the two quote kinds:
        the lambda `n` of `nextString`. */
    method QuotedString(tokCode: int, delim: char) returns (r: Result<Option<Token>, LexError>)
      requires Valid() && curPos < |input|
      modifies this, stringTable
      ensures Valid()
      ensures TableExtends(old(stringTable.strings))
      ensures count == old(count) && reachedEnd == old(reachedEnd)
      ensures !Opens(tokCode, delim, old(curPos)) ==> r == Ok(None) && curPos == old(curPos) && unchanged(stringTable)
      ensures Opens(tokCode, delim, old(curPos)) ==> Quoted(tokCode, delim, old(curPos), r)
      ensures r.Err? ==> unchanged(stringTable)
    {
      if tokCode != 0 && input[curPos] == delim {
        var send := StringEnd(delim, curPos + 1);
        if send.None? {
          return Err(UnterminatedString);
        }
        var sstart := AdvanceTo(send.value + 1);
        var idx := stringTable.PushString(input[sstart + 1..send.value]);
        return Ok(Some(Token(tokCode, Some(idx), line)));
      }
      return Ok(None);
    }

    /** `nextString`: a single-quoted string first, then a double-quoted one. */
    method NextString() returns (r: Result<Option<Token>, LexError>)
      requires Valid() && curPos < |input|
      modifies this, stringTable
      ensures Valid()
      ensures TableExtends(old(stringTable.strings))
      ensures count == old(count) && reachedEnd == old(reachedEnd)
      ensures Opens(rules.singleQuoteToken, '\'', old(curPos)) ==> Quoted(rules.singleQuoteToken, '\'', old(curPos), r)
      ensures !Opens(rules.singleQuoteToken, '\'', old(curPos)) && Opens(rules.doubleQuoteToken, '"', old(curPos)) ==>
        Quoted(rules.doubleQuoteToken, '"', old(curPos), r)
      ensures r == Ok(None) <==> !Opens(rules.singleQuoteToken, '\'', old(curPos)) && !Opens(rules.doubleQuoteToken, '"', old(curPos))
      ensures r == Ok(None) ==> curPos == old(curPos) && unchanged(stringTable)
      ensures r.Err? ==> r.error == UnterminatedString && curPos == old(curPos) && unchanged(stringTable)
    {
      r := QuotedString(rules.singleQuoteToken, '\'');
      if r.Err? || r.value.Some? {
        return;
      }
      r := QuotedString(rules.doubleQuoteToken, '"');
    }

    // ------------------------------------------------------------ literals and values

    /** `nextLiteral`: the longest literal at the cursor, if any. */
    method NextLiteral() returns (r: Option<Token>)
      requires Valid()
      modifies this
      ensures Valid()
      ensures count == old(count) && reachedEnd == old(reachedEnd)
      ensures TryValue(rules.literals, input, old(curPos)).None? ==> r.None? && curPos == old(curPos)
      ensures TryValue(rules.literals, input, old(curPos)).Some? ==>
        var (code, end) := TryValue(rules.literals, input, old(curPos)).value;
        curPos == end && r == Some(Token(code, None, line))
    {
      var result := TryValue(rules.literals, input, curPos);
      if result.None? {
        return None;
      }
      var _ := AdvanceTo(result.value.1);
      return Some(Token(result.value.0, None, line));
    }

    /** The first value pattern from index `i` that matches at `pos`. */
    ghost function FirstValue(i: nat, pos: nat): (r: Option<(nat, RegexMatch)>)
      requires pos <= |input|
      ensures r.Some? ==> i <= r.value.0 < |rules.valueTypes| && matcher(rules.valueTypes[r.value.0].0, input, pos) == Some(r.value.1)
      decreases |rules.valueTypes| - i
    {
      if i >= |rules.valueTypes| then None
      else match matcher(rules.valueTypes[i].0, input, pos)
        case Some(m) => Some((i, m))
        case None => FirstValue(i + 1, pos)
    }

    /** `nextValue`: the first value pattern that matches at the cursor gives
        the token, its value being the first sub-match or the whole match;
        the cursor moves past the whole match. */
    method NextValue() returns (r: Option<Token>)
      requires Valid()
      modifies this, stringTable
      ensures Valid()
      ensures TableExtends(old(stringTable.strings))
      ensures count == old(count) && reachedEnd == old(reachedEnd)
      ensures FirstValue(0, old(curPos)).None? ==> r.None? && curPos == old(curPos) && unchanged(stringTable)
      ensures FirstValue(0, old(curPos)).Some? ==>
        var (i, m) := FirstValue(0, old(curPos)).value;
        curPos == old(curPos) + m.length && r.Some? && r.value.kind == rules.valueTypes[i].1 && r.value.line == line &&
        r.value.valueIndex.Some? && r.value.valueIndex.value < |stringTable.strings| &&
        stringTable.GetString(r.value.valueIndex.value) == MatchValue(m)
    {
      var i := 0;
      while i < |rules.valueTypes|
        invariant i <= |rules.valueTypes|
        invariant FirstValue(0, curPos) == FirstValue(i, curPos)
      {
        var m := matcher(rules.valueTypes[i].0, input, curPos);
        if m.Some? {
          var value := MatchValue(m.value);
          var _ := AdvanceBy(m.value.length);
          var idx := stringTable.PushString(value);
          return Some(Token(rules.valueTypes[i].1, Some(idx), line));
        }
        i := i + 1;
      }
      return None;
    }

    // ------------------------------------------------------------ next

    /** `next`: skip, then at the end of the input the end token (type 0)
        the first time and nothing after that; otherwise a string, a literal
        or a value, counting each token, or nothing when none matches. */
    method Next() returns (r: Result<Option<Token>, LexError>)
      requires Valid()
      modifies this, stringTable
      ensures Valid()
      ensures TableExtends(old(stringTable.strings))
      ensures old(curPos) <= curPos
      ensures old(reachedEnd) ==> reachedEnd && curPos == old(curPos) && count == old(count) && (r.Ok? ==> r.value.None?)
      ensures !old(reachedEnd) && reachedEnd ==> r == Ok(Some(Token(0, None, line))) && count == old(count)
      ensures !reachedEnd && r.Ok? && r.value.Some? ==> count == old(count) + 1
      ensures r.Ok? && r.value.None? ==> count == old(count) && (old(reachedEnd) || curPos < |input|)
      ensures r.Err? ==> count == old(count)
      ensures SkipTo(old(curPos)).None? ==> r == Err(SkipNeverEnds)
      ensures SkipTo(old(curPos)).Some? && SkipTo(old(curPos)).value == |input| ==> curPos == |input| && r.Ok?
      ensures !old(reachedEnd) && SkipTo(old(curPos)) == Some(|input|) ==>
        reachedEnd && r == Ok(Some(Token(0, None, line))) && count == old(count)
      ensures SkipTo(old(curPos)).Some? && SkipTo(old(curPos)).value < |input| ==>
        var p := SkipTo(old(curPos)).value;
        if Opens(rules.singleQuoteToken, '\'', p) then Quoted(rules.singleQuoteToken, '\'', p, r)
        else if Opens(rules.doubleQuoteToken, '"', p) then Quoted(rules.doubleQuoteToken, '"', p, r)
        else if TryValue(rules.literals, input, p).Some? then
          var (code, end) := TryValue(rules.literals, input, p).value;
          r == Ok(Some(Token(code, None, line))) && curPos == end
        else if FirstValue(0, p).Some? then
          var (i, m) := FirstValue(0, p).value;
          curPos == p + m.length && r.Ok? && r.value.Some? && r.value.value.kind == rules.valueTypes[i].1 &&
          r.value.value.line == line && r.value.value.valueIndex.Some? && r.value.value.valueIndex.value < |stringTable.strings| &&
          stringTable.GetString(r.value.value.valueIndex.value) == MatchValue(m)
        else r == Ok(None) && curPos == p
    {
      var loops := Skip();
      if loops {
        return Err(SkipNeverEnds);
      }
      if curPos == |input| {
        if reachedEnd {
          return Ok(None);
        }
        reachedEnd := true;
        return Ok(Some(Token(0, None, line)));
      }
      var str := NextString();
      if str.Err? {
        return str;
      }
      if str.value.Some? {
        count := count + 1;
        return str;
      }
      var lit := NextLiteral();
      if lit.Some? {
        count := count + 1;
        return Ok(lit);
      }
      var value := NextValue();
      if value.Some? {
        count := count + 1;
        return Ok(value);
      }
      return Ok(None);
    }
  }

  /** One step of the scan at index `i` of the whole input. */
  lemma ScanStep(s: string, i: nat, delim: char)
    requires i < |s|
    ensures Shifted(ScanString(s[i..], delim), i) ==
      if s[i] == '\\' && i + 1 < |s| && (s[i + 1] == delim || s[i + 1] == '\\') then Shifted(ScanString(s[i + 2..], delim), i + 2)
      else if s[i] == '\\' || s[i] != delim then Shifted(ScanString(s[i + 1..], delim), i + 1)
      else Some(i)
  {
    var t := s[i..];
    assert t[0] == s[i];
    if 1 < |t| {
      assert t[1] == s[i + 1] && t[2..] == s[i + 2..];
    }
    assert t[1..] == s[i + 1..];
  }

  /** A result position moved by `offset`. */
  function Shifted(r: Option<nat>, offset: nat): Option<nat> {
    match r
    case None => None
    case Some(e) => Some(e + offset)
  }
}
