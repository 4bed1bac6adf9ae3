/** `utf16to8` and `utf8to16` of `lemon_py/utf.hpp`: UTF-16 with surrogate
    pairs (sections 2.1 and 2.2 of RFC 2781) converted to and from UTF-8. The
    C++ arithmetic on `uint32_t`, including the wrap-around that
    `SURROGATE_OFFSET` relies on, is `bv32` arithmetic. */
module Utf16 {
  import opened Wrappers
  import opened Utf8
  import opened Utf8Api

  /** `static_cast<uint16_t>`: the low 16 bits. */
  function Low16(x: CodePoint): Word {
    x & 0xffff
  }

  /** The code point a surrogate pair stands for, computed as the C++ code
      does: the lead shifted left by 10, plus the trail, plus the offset
      `0x10000 - (0xd800 << 10) - 0xdc00` taken modulo 2^32. */
  function Combine(lead: CodePoint, trail: CodePoint): CodePoint {
    (lead << 10) + trail + SurrogateOffset
  }

  /** A pair of surrogates stands for a supplementary code point, and that
      point splits back into the same pair. */
  lemma CombineBits(lead: CodePoint, trail: CodePoint)
    requires IsLeadSurrogate(lead) && IsTrailSurrogate(trail)
    ensures 0x10000 <= Combine(lead, trail) <= CodePointMax
    ensures (Combine(lead, trail) >> 10) + LeadOffset == lead
    ensures (Combine(lead, trail) & 0x3ff) + TrailSurrogateMin == trail
  {
  }

  /** A supplementary code point splits into a lead and a trail surrogate
      that combine back into it. */
  lemma SplitBits(cp: CodePoint)
    requires 0x10000 <= cp <= CodePointMax
    ensures IsLeadSurrogate((cp >> 10) + LeadOffset)
    ensures IsTrailSurrogate((cp & 0x3ff) + TrailSurrogateMin)
    ensures Combine((cp >> 10) + LeadOffset, (cp & 0x3ff) + TrailSurrogateMin) == cp
  {
  }

  // ---------------------------------------------------------------- utf16to8

  /** One turn of the `utf16to8` loop before `append`: the code point the
      units at the front of `ws` stand for and how many units it takes, or
      `invalid_utf16` of the offending unit — a lead surrogate at the end, a
      lead surrogate followed by something other than a trail surrogate (the
      exception carries that unit), or a lone trail surrogate. */
  function Decode16(ws: seq<Word>): (r: Result<(CodePoint, nat), UtfException>)
    requires 0 < |ws|
    ensures r.Ok? ==> r.value.1 == 1 || r.value.1 == 2
    ensures r.Ok? ==> r.value.1 <= |ws|
  {
    var cp := ws[0];
    if IsLeadSurrogate(cp) then
      if |ws| == 1 then Err(InvalidUtf16(ws[0]))
      else
        var trail := ws[1];
        if IsTrailSurrogate(trail) then Ok((Combine(cp, trail), 2))
        else Err(InvalidUtf16(ws[1]))
    else if IsTrailSurrogate(cp) then Err(InvalidUtf16(ws[0]))
    else Ok((cp, 1))
  }

  /** `Decode16` yields only valid code points, so the `append` after it
      never throws. */
  lemma Decode16Valid(ws: seq<Word>)
    requires 0 < |ws| && Decode16(ws).Ok?
    ensures IsCodePointValid(Decode16(ws).value.0)
  {
    var w0 := ws[0];
    if IsLeadSurrogate(w0) {
      CombineBits(w0, ws[1]);
    }
  }

  /** What `utf16to8` writes: the encodings of the code points the units
      stand for, or the first exception it throws. */
  function Utf16To8Spec(ws: seq<Word>): (r: Result<seq<Octet>, UtfException>)
    decreases |ws|
  {
    if |ws| == 0 then Ok([])
    else
      var (cp, n) :- Decode16(ws);
      Decode16Valid(ws);
      var octets := Append(cp).value;
      var rest :- Utf16To8Spec(ws[n..]);
      Ok(octets + rest)
  }

  // ---------------------------------------------------------------- utf8to16

  /** What one turn of the `utf8to16` loop writes for a code point: a
      surrogate pair above U+FFFF, otherwise the point itself, each cut to
      16 bits. */
  function Units(cp: CodePoint): (ws: seq<Word>)
    ensures |ws| == if cp > 0xffff then 2 else 1
  {
    if cp > 0xffff then [Low16((cp >> 10) + LeadOffset), Low16((cp & 0x3ff) + TrailSurrogateMin)]
    else [Low16(cp)]
  }

  /** What `utf8to16` writes: the units of the code points `next` decodes,
      or the first exception it throws. */
  function Utf8To16Spec(s: seq<Octet>): (r: Result<seq<Word>, UtfException>)
    decreases |s|
  {
    if |s| == 0 then Ok([])
    else
      var (cp, n) :- Next(s, 0);
      var rest :- Utf8To16Spec(s[n..]);
      Ok(Units(cp) + rest)
  }

  // ---------------------------------------------------------------- units of one code point

  lemma Low16Fits(x: CodePoint)
    requires x <= 0xffff
    ensures Low16(x) == x
  {
  }

  lemma Decode16Pair(w0: Word, w1: Word, rest: seq<Word>)
    requires IsLeadSurrogate(w0) && IsTrailSurrogate(w1)
    ensures Decode16([w0, w1] + rest) == Ok((Combine(w0, w1), 2))
  {
    var ws := [w0, w1] + rest;
    assert ws[0] == w0 && ws[1] == w1;
  }

  lemma Decode16Single(w: Word, rest: seq<Word>)
    requires !IsSurrogate(w)
    ensures Decode16([w] + rest) == Ok((w, 1))
  {
    var ws := [w] + rest;
    assert ws[0] == w;
  }

  /** Reading back the units written for a valid code point yields it again. */
  lemma DecodeUnits(cp: CodePoint, rest: seq<Word>)
    requires IsCodePointValid(cp)
    ensures Decode16(Units(cp) + rest) == Ok((cp, |Units(cp)|))
  {
    if cp > 0xffff {
      SplitBits(cp);
      var lead := (cp >> 10) + LeadOffset;
      var trail := (cp & 0x3ff) + TrailSurrogateMin;
      Low16Fits(lead);
      Low16Fits(trail);
      Decode16Pair(Low16(lead), Low16(trail), rest);
    } else {
      Low16Fits(cp);
      Decode16Single(Low16(cp), rest);
    }
  }

  /** The units `Decode16` consumes are the ones `Units` writes for the code
      point it reads. */
  lemma UnitsDecoded(ws: seq<Word>)
    requires 0 < |ws| && Decode16(ws).Ok?
    ensures Units(Decode16(ws).value.0) == ws[..Decode16(ws).value.1]
  {
    var w0 := ws[0];
    var cp := w0;
    if IsLeadSurrogate(cp) {
      var w1 := ws[1];
      assert ws[..2] == [w0, w1];
      UnitsOfPair(w0, w1);
    } else {
      assert ws[..1] == [w0];
      UnitsOfSingle(w0);
    }
  }

  lemma UnitsOfPair(w0: Word, w1: Word)
    requires IsLeadSurrogate(w0) && IsTrailSurrogate(w1)
    ensures Units(Combine(w0, w1)) == [w0, w1]
  {
    CombineBits(w0, w1);
    Low16Fits(w0);
    Low16Fits(w1);
  }

  lemma UnitsOfSingle(w: Word)
    requires !IsSurrogate(w)
    ensures Units(w) == [w]
  {
    Low16Fits(w);
  }

  // ---------------------------------------------------------------- round trips

  /** `utf8to16` inverts `utf16to8` wherever `utf16to8` does not throw. */
  lemma {:induction false} Utf16RoundTrip(ws: seq<Word>)
    requires Utf16To8Spec(ws).Ok?
    ensures Utf8To16Spec(Utf16To8Spec(ws).value) == Ok(ws)
    decreases |ws|
  {
    if |ws| > 0 {
      var cp, n := Utf16To8Turn(ws);
      Utf16RoundTrip(ws[n..]);
      Utf16RoundTripTurn(ws, cp, n, Utf16To8Spec(ws).value, Utf16To8Spec(ws[n..]).value);
    }
  }

  /** One turn of `utf16to8`: the code point `Decode16` reads from the
      front, whose units are the `n` it read, written as its UTF-8 encoding
      in front of what the rest converts to. */
  lemma Utf16To8Turn(ws: seq<Word>) returns (cp: CodePoint, n: nat)
    requires |ws| > 0 && Utf16To8Spec(ws).Ok?
    ensures 0 < n <= |ws| && IsCodePointValid(cp) && Units(cp) == ws[..n]
    ensures Utf16To8Spec(ws[n..]).Ok? && Utf16To8Spec(ws).value == Append(cp).value + Utf16To8Spec(ws[n..]).value
  {
    cp, n := Decode16(ws).value.0, Decode16(ws).value.1;
    Decode16Valid(ws);
    UnitsDecoded(ws);
  }

  /** The round trip of one turn of `utf16to8`: the octets `s` written for
      the code point whose units are `ws[..n]`, then octets that convert
      back to the rest of `ws`, convert back to `ws`. */
  lemma Utf16RoundTripTurn(ws: seq<Word>, cp: CodePoint, n: nat, s: seq<Octet>, rest: seq<Octet>)
    requires 0 < n <= |ws| && IsCodePointValid(cp) && Units(cp) == ws[..n]
    requires s == Append(cp).value + rest && Utf8To16Spec(rest) == Ok(ws[n..])
    ensures Utf8To16Spec(s) == Ok(ws)
  {
    var octets := Append(cp).value;
    DecodeAppend(cp, rest);
    assert s[|octets|..] == rest;
    Utf8To16Front(s, cp, |octets|);
    assert ws[..n] + ws[n..] == ws;
  }

  /** `utf8to16` of octets whose front `next` reads as `cp`, `k` octets long. */
  lemma Utf8To16Front(s: seq<Octet>, cp: CodePoint, k: nat)
    requires k <= |s| && Next(s, 0) == Ok((cp, k)) && Utf8To16Spec(s[k..]).Ok?
    ensures Utf8To16Spec(s) == Ok(Units(cp) + Utf8To16Spec(s[k..]).value)
  {
  }

  /** `utf16to8` of the units of one valid code point followed by more units. */
  lemma Utf16To8Cons(cp: CodePoint, rest: seq<Word>)
    requires IsCodePointValid(cp) && Utf16To8Spec(rest).Ok?
    ensures Utf16To8Spec(Units(cp) + rest) == Ok(Append(cp).value + Utf16To8Spec(rest).value)
  {
    var ws := Units(cp) + rest;
    DecodeUnits(cp, rest);
    assert ws[|Units(cp)|..] == rest;
  }

  /** `utf16to8` inverts `utf8to16` wherever `utf8to16` does not throw. */
  lemma {:induction false} Utf8RoundTrip(s: seq<Octet>)
    requires Utf8To16Spec(s).Ok?
    ensures Utf16To8Spec(Utf8To16Spec(s).value) == Ok(s)
    decreases |s|
  {
    if |s| > 0 {
      var cp, n := Utf8To16Turn(s);
      Utf8RoundTrip(s[n..]);
      Utf8RoundTripTurn(s, cp, n, Utf8To16Spec(s).value, Utf8To16Spec(s[n..]).value);
    }
  }

  /** The round trip of one turn of `utf8to16`: the units `ws` written for
      the code point encoded by `s[..n]`, then units that convert back to
      the rest of `s`, convert back to `s`. */
  lemma Utf8RoundTripTurn(s: seq<Octet>, cp: CodePoint, n: nat, ws: seq<Word>, rest: seq<Word>)
    requires 0 < n <= |s| && IsCodePointValid(cp) && Append(cp) == Ok(s[..n])
    requires ws == Units(cp) + rest && Utf16To8Spec(rest) == Ok(s[n..])
    ensures Utf16To8Spec(ws) == Ok(s)
  {
    Utf16To8Cons(cp, rest);
    assert s[..n] + s[n..] == s;
  }

  /** One turn of `utf8to16`: the code point `next` reads from the front,
      whose UTF-8 encoding is the `n` octets it read, written as its units
      in front of what the rest converts to. */
  lemma Utf8To16Turn(s: seq<Octet>) returns (cp: CodePoint, n: nat)
    requires |s| > 0 && Utf8To16Spec(s).Ok?
    ensures 0 < n <= |s| && IsCodePointValid(cp) && Append(cp) == Ok(s[..n])
    ensures Utf8To16Spec(s[n..]).Ok? && Utf8To16Spec(s).value == Units(cp) + Utf8To16Spec(s[n..]).value
  {
    cp, n := Next(s, 0).value.0, Next(s, 0).value.1;
    AppendDecoded(s);
  }

  // ---------------------------------------------------------------- lone surrogates

  /** UTF-16 without lone surrogates: every lead surrogate is followed by a
      trail surrogate, and every trail surrogate follows a lead surrogate. */
  predicate WellFormed16(ws: seq<Word>) {
    (forall k :: 0 <= k < |ws| && IsLeadSurrogate(ws[k]) ==> k + 1 < |ws| && IsTrailSurrogate(ws[k + 1])) &&
    (forall k :: 0 <= k < |ws| && IsTrailSurrogate(ws[k]) ==> 0 < k && IsLeadSurrogate(ws[k - 1]))
  }

  /** Where `Decode16` reads a code point, the units are well formed exactly
      when the units after it are. */
  lemma WellFormedStep(ws: seq<Word>)
    requires 0 < |ws| && Decode16(ws).Ok?
    ensures WellFormed16(ws) <==> WellFormed16(ws[Decode16(ws).value.1..])
  {
    var n := Decode16(ws).value.1;
    var t := ws[n..];
    assert forall k :: 0 <= k < |t| ==> t[k] == ws[n + k];
    if WellFormed16(ws) {
      assert |t| > 0 ==> !IsTrailSurrogate(t[0]);
    }
  }

  /** `utf16to8` throws exactly on UTF-16 with a lone surrogate. */
  lemma {:induction false} Utf16OkIffWellFormed(ws: seq<Word>)
    ensures Utf16To8Spec(ws).Ok? <==> WellFormed16(ws)
    decreases |ws|
  {
    if |ws| > 0 {
      if Decode16(ws).Ok? {
        WellFormedStep(ws);
        Utf16OkIffWellFormed(ws[Decode16(ws).value.1..]);
        Decode16Valid(ws);
      } else {
        assert !(IsLeadSurrogate(ws[0]) ==> 0 + 1 < |ws| && IsTrailSurrogate(ws[0 + 1])) || !(IsTrailSurrogate(ws[0]) ==> false);
      }
    }
  }

  /** What `utf8to16` writes has no lone surrogate. */
  lemma Utf8To16WellFormed(s: seq<Octet>)
    requires Utf8To16Spec(s).Ok?
    ensures WellFormed16(Utf8To16Spec(s).value)
  {
    Utf8RoundTrip(s);
    Utf16OkIffWellFormed(Utf8To16Spec(s).value);
  }

  // ---------------------------------------------------------------- the loops

  /** The first turn of the `utf16to8` loop body, up to `append`: reads one
      unit, or two for a surrogate pair, and throws on a lone surrogate. */
  method ReadUnits(ws: seq<Word>, start: nat) returns (r: Result<(CodePoint, nat), UtfException>)
    requires start < |ws|
    ensures r == Decode16(ws[start..])
  {
    var t := ws[start..];
    assert t[0] == ws[start];
    var cp := ws[start];
    var next := start + 1;
    if IsLeadSurrogate(cp) {
      if next != |ws| {
        var trail := ws[next];
        assert t[1] == trail;
        next := next + 1;
        if IsTrailSurrogate(trail) {
          cp := Combine(cp, trail);
        } else {
          return Err(InvalidUtf16(trail));
        }
      } else {
        return Err(InvalidUtf16(cp));
      }
    } else if IsTrailSurrogate(cp) {
      return Err(InvalidUtf16(cp));
    }
    return Ok((cp, next - start));
  }

  /** `utf16to8`. */
  method Utf16To8(ws: seq<Word>) returns (r: Result<seq<Octet>, UtfException>)
    ensures r == Utf16To8Spec(ws)
  {
    var out: seq<Octet> := [];
    var start := 0;
    assert ws[start..] == ws;
    PrefixedEmpty(Utf16To8Spec(ws));
    while start != |ws|
      invariant start <= |ws|
      invariant Utf16To8Spec(ws) == Prefixed(out, Utf16To8Spec(ws[start..]))
      decreases |ws| - start
    {
      var read := ReadUnits(ws, start);
      if read.Err? {
        return Err(read.error);
      }
      var (cp, n) := read.value;
      Decode16Valid(ws[start..]);
      var octets := Append(cp).value;
      assert ws[start..][n..] == ws[start + n..];
      ConcatAssoc(out, octets, Utf16To8Spec(ws[start + n..]));
      out := out + octets;
      start := start + n;
    }
    assert ws[start..] == [];
    assert out + [] == out;
    return Ok(out);
  }

  /** `utf8to16`. */
  method Utf8To16(s: seq<Octet>) returns (r: Result<seq<Word>, UtfException>)
    ensures r == Utf8To16Spec(s)
  {
    var out: seq<Word> := [];
    var start := 0;
    assert s[start..] == s;
    PrefixedEmpty(Utf8To16Spec(s));
    while start < |s|
      invariant start <= |s|
      invariant Utf8To16Spec(s) == Prefixed(out, Utf8To16Spec(s[start..]))
      decreases |s| - start
    {
      var next := Next(s, start);
      NextShift(s, start);
      if next.Err? {
        return Err(next.error);
      }
      var (cp, n) := next.value;
      assert s[start..][n - start..] == s[n..];
      var units := Units(cp);
      ConcatAssoc(out, units, Utf8To16Spec(s[n..]));
      out := out + units;
      start := n;
    }
    assert s[start..] == [];
    assert out + [] == out;
    return Ok(out);
  }
}
