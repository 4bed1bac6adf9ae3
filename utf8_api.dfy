/** The library API of `lemon_py/utf.hpp` built on the checked primitives of
    module `Utf8`: `find_invalid`, `is_valid`, `starts_with_bom`,
    `replace_invalid`, `prior`, `distance` and the conversions between UTF-8
    and UTF-32 or UTF-16. Each loop of the C++ code is a method proved
    against a function over the remaining range; an output iterator is the
    sequence the method builds, and a thrown exception an `Err` result. */
module Utf8Api {
  import opened Wrappers
  import opened Utf8

  /** `out` written before the rest of a computation that may throw. */
  function Prefixed<T>(out: seq<T>, r: Result<seq<T>, UtfException>): Result<seq<T>, UtfException> {
    if r.Ok? then Ok(out + r.value) else r
  }

  lemma PrefixedEmpty<T>(r: Result<seq<T>, UtfException>)
    ensures Prefixed([], r) == r
  {
    if r.Ok? {
      assert [] + r.value == r.value;
    }
  }

  lemma ConcatAssoc<T>(a: seq<T>, b: seq<T>, r: Result<seq<T>, UtfException>)
    ensures Prefixed(a + b, r) == Prefixed(a, Prefixed(b, r))
  {
    if r.Ok? {
      assert a + b + r.value == a + (b + r.value);
    }
  }

  /** Writing `out` and then `written` before the rest is writing `out + written` before it. */
  lemma PrefixedStep<T>(out: seq<T>, written: seq<T>, total: Result<seq<T>, UtfException>, here: Result<seq<T>, UtfException>, there: Result<seq<T>, UtfException>)
    requires total == Prefixed(out, here) && here == Prefixed(written, there)
    ensures total == Prefixed(out + written, there)
  {
    ConcatAssoc(out, written, there);
  }

  // ---------------------------------------------------------------- find_invalid, is_valid

  /** How far from the start of `s` the first sequence `validate_next`
      rejects begins, or `|s|` when there is none. */
  function FirstInvalid(s: seq<Octet>): (r: nat)
    ensures r <= |s|
    ensures r < |s| ==> ValidateNext(s[r..], 0).err != Utf8Ok
    decreases |s|
  {
    if |s| == 0 then 0
    else
      var d := ValidateNext(s, 0);
      if d.err != Utf8Ok then
        assert s[0..] == s;
        0
      else
        Shifted(s, d.it, FirstInvalid(s[d.it..]))
  }

  /** A position found in `s[a..]`, seen from the start of `s`. */
  function Shifted(s: seq<Octet>, a: nat, rest: nat): (r: nat)
    requires a <= |s| && rest <= |s| - a
    requires rest < |s| - a ==> ValidateNext(s[a..][rest..], 0).err != Utf8Ok
    ensures r <= |s| && (r < |s| ==> ValidateNext(s[r..], 0).err != Utf8Ok)
  {
    assert s[a..][rest..] == s[a + rest..];
    a + rest
  }

  /** `find_invalid`: walks the range with `validate_next` and stops where it fails. */
  method FindInvalid(s: seq<Octet>, start: nat) returns (result: nat)
    requires start <= |s|
    ensures result == start + FirstInvalid(s[start..])
  {
    result := start;
    while result != |s|
      invariant start <= result <= |s|
      invariant result + FirstInvalid(s[result..]) == start + FirstInvalid(s[start..])
      decreases |s| - result
    {
      var d := ValidateNext(s, result);
      ValidateNextShift(s, result);
      if d.err != Utf8Ok {
        return;
      }
      assert s[result..][d.it - result..] == s[d.it..];
      result := d.it;
    }
  }

  /** `is_valid`: `find_invalid` reaches the end. */
  predicate IsValid(s: seq<Octet>) {
    FirstInvalid(s) == |s|
  }

  // ---------------------------------------------------------------- utf8to32, utf32to8

  /** What `utf8to32` writes: the code points `next` decodes one after the
      other, or the first exception it throws. */
  function Utf8To32Spec(s: seq<Octet>): (r: Result<seq<CodePoint>, UtfException>)
    decreases |s|
  {
    if |s| == 0 then Ok([])
    else
      var (cp, n) :- Next(s, 0);
      var rest :- Utf8To32Spec(s[n..]);
      Ok([cp] + rest)
  }

  /** `utf8to32`. */
  method Utf8To32(s: seq<Octet>) returns (r: Result<seq<CodePoint>, UtfException>)
    ensures r == Utf8To32Spec(s)
  {
    var out: seq<CodePoint> := [];
    var start := 0;
    assert s[start..] == s;
    assert Utf8To32Spec(s).Ok? ==> out + Utf8To32Spec(s).value == Utf8To32Spec(s).value;
    while start < |s|
      invariant start <= |s|
      invariant Utf8To32Spec(s) == Prefixed(out, Utf8To32Spec(s[start..]))
      decreases |s| - start
    {
      var next := Next(s, start);
      NextShift(s, start);
      if next.Err? {
        return Err(next.error);
      }
      var (cp, n) := next.value;
      assert s[start..][n - start..] == s[n..];
      if Utf8To32Spec(s[n..]).Ok? {
        assert out + [cp] + Utf8To32Spec(s[n..]).value == out + ([cp] + Utf8To32Spec(s[n..]).value);
      }
      out := out + [cp];
      start := n;
    }
    assert s[start..] == [];
    assert out + [] == out;
    return Ok(out);
  }

  /** What `utf32to8` writes: the encodings `append` writes one after the
      other, or the first exception it throws. */
  function Utf32To8Spec(cps: seq<CodePoint>): (r: Result<seq<Octet>, UtfException>)
    decreases |cps|
  {
    if |cps| == 0 then Ok([])
    else
      var octets :- Append(cps[0]);
      var rest :- Utf32To8Spec(cps[1..]);
      Ok(octets + rest)
  }

  /** `utf32to8`. */
  method Utf32To8(cps: seq<CodePoint>) returns (r: Result<seq<Octet>, UtfException>)
    ensures r == Utf32To8Spec(cps)
  {
    var out: seq<Octet> := [];
    var i := 0;
    assert cps[i..] == cps;
    assert Utf32To8Spec(cps).Ok? ==> out + Utf32To8Spec(cps).value == Utf32To8Spec(cps).value;
    while i != |cps|
      invariant i <= |cps|
      invariant Utf32To8Spec(cps) == Prefixed(out, Utf32To8Spec(cps[i..]))
      decreases |cps| - i
    {
      var octets := Append(cps[i]);
      assert cps[i..][0] == cps[i] && cps[i..][1..] == cps[i + 1..];
      if octets.Err? {
        return Err(octets.error);
      }
      if Utf32To8Spec(cps[i + 1..]).Ok? {
        assert out + octets.value + Utf32To8Spec(cps[i + 1..]).value == out + (octets.value + Utf32To8Spec(cps[i + 1..]).value);
      }
      out := out + octets.value;
      i := i + 1;
    }
    assert cps[i..] == [];
    assert out + [] == out;
    return Ok(out);
  }

  /** Every code point `utf8to32` produces is valid. */
  lemma {:induction false} DecodedValid(s: seq<Octet>)
    requires Utf8To32Spec(s).Ok?
    ensures forall k :: 0 <= k < |Utf8To32Spec(s).value| ==> IsCodePointValid(Utf8To32Spec(s).value[k])
    decreases |s|
  {
    if |s| > 0 {
      var (cp, n) := Next(s, 0).value;
      DecodedValid(s[n..]);
    }
  }

  /** `utf8to32` inverts `utf32to8` on valid code points. */
  lemma {:induction false} DecodeEncoded(cps: seq<CodePoint>)
    requires forall k :: 0 <= k < |cps| ==> IsCodePointValid(cps[k])
    ensures Utf32To8Spec(cps).Ok?
    ensures Utf8To32Spec(Utf32To8Spec(cps).value) == Ok(cps)
    decreases |cps|
  {
    if |cps| > 0 {
      DecodeEncoded(cps[1..]);
      var rest := Utf32To8Spec(cps[1..]).value;
      assert Utf32To8Spec(cps).value == Append(cps[0]).value + rest;
      DecodeFront(cps[0], rest, Utf32To8Spec(cps).value, cps[1..]);
      assert [cps[0]] + cps[1..] == cps;
    }
  }

  /** Octets that start with the encoding of `cp` decode to `cp` first. */
  lemma DecodeFront(cp: CodePoint, rest: seq<Octet>, s: seq<Octet>, tail: seq<CodePoint>)
    requires IsCodePointValid(cp) && s == Append(cp).value + rest
    requires Utf8To32Spec(rest) == Ok(tail)
    ensures Utf8To32Spec(s) == Ok([cp] + tail)
  {
    DecodeAppend(cp, rest);
    assert s[|Append(cp).value|..] == rest;
  }

  /** `utf32to8` inverts `utf8to32` wherever `utf8to32` does not throw. */
  lemma {:induction false} EncodeDecoded(s: seq<Octet>)
    requires Utf8To32Spec(s).Ok?
    ensures Utf32To8Spec(Utf8To32Spec(s).value) == Ok(s)
    decreases |s|
  {
    if |s| > 0 {
      var (cp, n) := Next(s, 0).value;
      AppendDecoded(s);
      EncodeDecoded(s[n..]);
      var v := Utf8To32Spec(s).value;
      assert v[0] == cp && v[1..] == Utf8To32Spec(s[n..]).value;
      assert s[..n] + s[n..] == s;
    }
  }

  /** `is_valid` holds exactly where `utf8to32` does not throw. */
  lemma {:induction false} ValidIffDecodes(s: seq<Octet>)
    ensures IsValid(s) <==> Utf8To32Spec(s).Ok?
    decreases |s|
  {
    if |s| > 0 && ValidateNext(s, 0).err == Utf8Ok {
      ValidIffDecodes(s[ValidateNext(s, 0).it..]);
    }
  }

  /** What `utf32to8` writes from valid code points is valid UTF-8. */
  lemma EncodingIsValid(cps: seq<CodePoint>)
    requires forall k :: 0 <= k < |cps| ==> IsCodePointValid(cps[k])
    ensures Utf32To8Spec(cps).Ok? && IsValid(Utf32To8Spec(cps).value)
  {
    DecodeEncoded(cps);
    ValidIffDecodes(Utf32To8Spec(cps).value);
  }

  // ---------------------------------------------------------------- distance

  /** What `distance` returns: the number of times `next` steps before the
      end, or the exception it throws. */
  function DistanceSpec(s: seq<Octet>): (r: Result<nat, UtfException>)
    decreases |s|
  {
    if |s| == 0 then Ok(0)
    else
      var (cp, n) :- Next(s, 0);
      var rest :- DistanceSpec(s[n..]);
      Ok(1 + rest)
  }

  /** `distance`: steps with `next` until the end, counting. */
  method Distance(s: seq<Octet>) returns (r: Result<nat, UtfException>)
    ensures r == DistanceSpec(s)
  {
    var dist: nat := 0;
    var first := 0;
    assert s[first..] == s;
    while first < |s|
      invariant first <= |s|
      invariant DistanceSpec(s) == Counted(dist, DistanceSpec(s[first..]))
      decreases |s| - first
    {
      var next := Next(s, first);
      DistanceStep(s, first);
      if next.Err? {
        return Err(next.error);
      }
      first := next.value.1;
      dist := dist + 1;
    }
    assert s[first..] == [];
    return Ok(dist);
  }

  /** `d` added to a successful count. */
  function Counted(d: nat, r: Result<nat, UtfException>): Result<nat, UtfException> {
    if r.Ok? then Ok(d + r.value) else r
  }

  /** One step of `distance` from `first`: a throw ends the count, a code point adds one. */
  lemma DistanceStep(s: seq<Octet>, first: nat)
    requires first < |s|
    ensures Next(s, first).Err? ==> DistanceSpec(s[first..]) == Err(Next(s, first).error)
    ensures Next(s, first).Ok? ==>
              first < Next(s, first).value.1 <= |s|
              && DistanceSpec(s[first..]) == Counted(1, DistanceSpec(s[Next(s, first).value.1..]))
  {
    NextShift(s, first);
    var t := s[first..];
    if Next(t, 0).Ok? {
      var k := Next(t, 0).value.1;
      assert t[k..] == s[first + k..];
    }
  }

  /** `distance` counts the code points `utf8to32` decodes. */
  lemma {:induction false} DistanceCounts(s: seq<Octet>)
    ensures DistanceSpec(s).Ok? <==> Utf8To32Spec(s).Ok?
    ensures DistanceSpec(s).Ok? ==> DistanceSpec(s).value == |Utf8To32Spec(s).value|
    ensures DistanceSpec(s).Err? ==> DistanceSpec(s).error == Utf8To32Spec(s).error
    decreases |s|
  {
    if |s| > 0 && Next(s, 0).Ok? {
      DistanceCounts(s[Next(s, 0).value.1..]);
    }
  }

  /** The distance across an encoding is the number of code points encoded. */
  lemma DistanceOfEncoding(cps: seq<CodePoint>)
    requires forall k :: 0 <= k < |cps| ==> IsCodePointValid(cps[k])
    ensures Utf32To8Spec(cps).Ok? && DistanceSpec(Utf32To8Spec(cps).value) == Ok(|cps|)
  {
    DecodeEncoded(cps);
    DistanceCounts(Utf32To8Spec(cps).value);
  }

  // ---------------------------------------------------------------- prior

  /** Where stepping back from the end of `r` over trail octets stops: the
      last octet that is not a trail, or `None` when every octet is one. */
  function LastLead(r: seq<Octet>): (o: Option<nat>)
    ensures o.Some? ==> o.value < |r| && !IsTrail(r[o.value])
    ensures o.Some? ==> forall k :: o.value < k < |r| ==> IsTrail(r[k])
    ensures o.None? ==> forall k :: 0 <= k < |r| ==> IsTrail(r[k])
    decreases |r|
  {
    if |r| == 0 then None
    else if !IsTrail(r[|r| - 1]) then Some(|r| - 1)
    else LastLead(r[..|r| - 1])
  }

  /** The octet at `j` is the one `LastLead` finds when it is no trail and
      only trails follow it. */
  lemma {:induction false} LastLeadAt(r: seq<Octet>, j: nat)
    requires j < |r| && !IsTrail(r[j])
    requires forall k :: j < k < |r| ==> IsTrail(r[k])
    ensures LastLead(r) == Some(j)
    decreases |r|
  {
    if j < |r| - 1 {
      var p := r[..|r| - 1];
      assert forall k :: j < k < |p| ==> p[k] == r[k];
      LastLeadAt(p, j);
    }
  }

  /** What `prior` does on the range `r` from `start` to the iterator: it
      throws `not_enough_room` on an empty range, `invalid_utf8` of the first
      octet when the range holds only trail octets, and otherwise steps back
      to the last lead octet and decodes the code point there with
      `peek_next`, up to the old position. The position returned is relative
      to `start`. */
  function PriorSpec(r: seq<Octet>): (res: Result<(CodePoint, nat), UtfException>)
  {
    if |r| == 0 then Err(NotEnoughRoomError)
    else match LastLead(r)
      case None => Err(InvalidUtf8(r[0]))
      case Some(j) =>
        var (cp, _) :- Next(r, j);
        Ok((cp, j))
  }

  /** `prior`. */
  method Prior(r: seq<Octet>) returns (res: Result<(CodePoint, nat), UtfException>)
    ensures res == PriorSpec(r)
  {
    if |r| == 0 {
      return Err(NotEnoughRoomError);
    }
    var it: nat := |r| - 1;
    while IsTrail(r[it])
      invariant it < |r|
      invariant forall k :: it < k < |r| ==> IsTrail(r[k])
      decreases it
    {
      if it == 0 {
        return Err(InvalidUtf8(r[it]));
      }
      it := it - 1;
    }
    LastLeadAt(r, it);
    var next := Next(r, it);
    if next.Err? {
      return Err(next.error);
    }
    return Ok((next.value.0, it));
  }

  /** A sequence `validate_next` accepts starts with an octet that is no
      trail and goes on with trail octets only. */
  lemma DecodedShape(t: seq<Octet>)
    requires ValidateNext(t, 0).err == Utf8Ok
    ensures var n := ValidateNext(t, 0).it;
      !IsTrail(t[0]) && forall k :: 0 < k < n ==> IsTrail(t[k])
  {
    var d := ValidateNext(t, 0);
    AppendDecoded(t);
    AppendLeadLength(d.cp);
    LeadClasses(t[0]);
  }

  /** Stepping back over the encoding of a code point finds that code point
      and the position its encoding begins at, whatever comes before it. */
  lemma PriorOfEncoding(pre: seq<Octet>, cp: CodePoint)
    requires IsCodePointValid(cp)
    ensures PriorSpec(pre + Append(cp).value) == Ok((cp, |pre|))
  {
    var e := Append(cp).value;
    var r := pre + e;
    AppendLeadLength(cp);
    LeadClasses(e[0]);
    assert forall k :: |pre| <= k < |r| ==> r[k] == e[k - |pre|];
    LastLeadAt(r, |pre|);
    NextAppend(pre, cp, []);
    assert pre + e + [] == r;
  }

  /** `prior` undoes `next`: stepping back from where `next` stopped, within
      any range starting at or before where it began, finds the same code
      point and the position it began at. */
  lemma PriorAfterNext(s: seq<Octet>, start: nat, i: nat)
    requires start <= i <= |s| && Next(s, i).Ok?
    ensures i < Next(s, i).value.1 <= |s|
    ensures PriorSpec(s[start..Next(s, i).value.1]) == Ok((Next(s, i).value.0, i - start))
  {
    var (cp, n) := Next(s, i).value;
    NextShift(s, i);
    ValidateNextShift(s, i);
    var t := s[i..];
    AppendDecoded(t);
    assert Append(cp).value == t[..n - i] == s[i..n];
    assert s[start..n] == s[start..i] + s[i..n];
    PriorOfEncoding(s[start..i], cp);
  }

  // ---------------------------------------------------------------- starts_with_bom

  /** The byte order mark, `bom`. */
  const Bom: seq<Octet> := [0xef, 0xbb, 0xbf]

  /** `starts_with_bom`: tests the octets one at a time, stopping at the end. */
  function StartsWithBom(s: seq<Octet>): (r: bool)
    ensures r <==> |s| >= 3 && s[..3] == Bom
  {
    (|s| > 0 && s[0] == Bom[0]) && (|s| > 1 && s[1] == Bom[1]) && (|s| > 2 && s[2] == Bom[2])
  }

  /** The mark is the encoding of U+FEFF, so `next` reads it as that code point. */
  lemma BomIsFeff(rest: seq<Octet>)
    ensures Append(0xfeff) == Ok(Bom)
    ensures Next(Bom + rest, 0) == Ok((0xfeff, 3))
  {
    NextAppend([], 0xfeff, rest);
    assert [] + Bom + rest == Bom + rest;
  }

  // ---------------------------------------------------------------- replace_invalid

  /** The replacement `replace_invalid` uses when none is given: U+FFFD. */
  const ReplacementMarker: CodePoint := 0xfffd

  /** How many trail octets `s` starts with. */
  function TrailRun(s: seq<Octet>): (n: nat)
    ensures n <= |s|
    ensures forall k :: 0 <= k < n ==> IsTrail(s[k])
    ensures n < |s| ==> !IsTrail(s[n])
    decreases |s|
  {
    if |s| == 0 || !IsTrail(s[0]) then 0 else 1 + TrailRun(s[1..])
  }

  lemma {:induction false} TrailRunUnique(s: seq<Octet>, n: nat)
    requires n <= |s| && (forall k :: 0 <= k < n ==> IsTrail(s[k])) && (n < |s| ==> !IsTrail(s[n]))
    ensures TrailRun(s) == n
    decreases n
  {
    if n > 0 {
      TrailRunUnique(s[1..], n - 1);
    }
  }

  /** What `replace_invalid` writes: each sequence `validate_next` accepts is
      copied; each it rejects becomes one `replacement` — a truncated sequence
      at the end ends the loop, an invalid lead octet is skipped alone, and
      any other rejected sequence is skipped with the trail octets after its
      first octet. `append` throws when the replacement is not a valid code
      point, but only once a replacement is needed. */
  function ReplaceSpec(s: seq<Octet>, replacement: CodePoint): (r: Result<seq<Octet>, UtfException>)
    decreases |s|
  {
    if |s| == 0 then Ok([])
    else
      var d := ValidateNext(s, 0);
      if d.err == Utf8Ok then
        var rest :- ReplaceSpec(s[d.it..], replacement);
        Ok(s[..d.it] + rest)
      else
        var mark :- Append(replacement);
        if d.err == NotEnoughRoom then Ok(mark)
        else if d.err == InvalidLead then
          var rest :- ReplaceSpec(s[1..], replacement);
          Ok(mark + rest)
        else
          var rest :- ReplaceSpec(s[1 + TrailRun(s[1..])..], replacement);
          Ok(mark + rest)
  }

  lemma TrailRunAt(s: seq<Octet>, i: nat, j: nat)
    requires i <= j <= |s| && (forall k :: i <= k < j ==> IsTrail(s[k])) && (j < |s| ==> !IsTrail(s[j]))
    ensures TrailRun(s[i..]) == j - i
  {
    var u := s[i..];
    assert forall k :: 0 <= k < |u| ==> u[k] == s[i + k];
    TrailRunUnique(u, j - i);
  }

  /** The inner `for` loop of `replace_invalid`: copies an accepted sequence. */
  method CopyOctets(s: seq<Octet>, from: nat, to: nat, out: seq<Octet>) returns (acc: seq<Octet>)
    requires from <= to <= |s|
    ensures acc == out + s[from..to]
  {
    acc := out;
    var i := from;
    while i != to
      invariant from <= i <= to
      invariant acc == out + s[from..i]
    {
      acc := acc + [s[i]];
      i := i + 1;
    }
  }

  /** The inner `while` loop of `replace_invalid`: skips trail octets. */
  method SkipTrails(s: seq<Octet>, from: nat) returns (start: nat)
    requires from <= |s|
    ensures start == from + TrailRun(s[from..])
  {
    start := from;
    while start != |s| && IsTrail(s[start])
      invariant from <= start <= |s|
      invariant forall k :: from <= k < start ==> IsTrail(s[k])
      decreases |s| - start
    {
      start := start + 1;
    }
    TrailRunAt(s, from, start);
  }

  /** One turn of the `replace_invalid` loop on the range `t` from `start` to
      the end: the `switch` on what `validate_next` reports, returning what it
      writes and how many octets it consumes. */
  method ReplaceOne(t: seq<Octet>, replacement: CodePoint) returns (written: Result<seq<Octet>, UtfException>, consumed: nat)
    requires 0 < |t|
    ensures 0 < consumed <= |t|
    ensures written.Err? ==> ReplaceSpec(t, replacement) == written
    ensures written.Ok? ==> ReplaceSpec(t, replacement) == Prefixed(written.value, ReplaceSpec(t[consumed..], replacement))
  {
    var d := ValidateNext(t, 0);
    if d.err == Utf8Ok {
      var out := CopyOctets(t, 0, d.it, []);
      assert out == t[..d.it];
      return Ok(out), d.it;
    }
    var mark := Append(replacement);
    if mark.Err? {
      return Err(mark.error), 1;
    }
    if d.err == NotEnoughRoom {
      consumed := |t|;
      assert t[consumed..] == [];
      assert mark.value + [] == mark.value;
    } else if d.err == InvalidLead {
      consumed := 1;
    } else {
      consumed := SkipTrails(t, 1);
    }
    written := mark;
  }

  /** `replace_invalid`. */
  method ReplaceInvalid(s: seq<Octet>, replacement: CodePoint) returns (r: Result<seq<Octet>, UtfException>)
    ensures r == ReplaceSpec(s, replacement)
  {
    ghost var total := ReplaceSpec(s, replacement);
    var out: seq<Octet> := [];
    var start := 0;
    ghost var rest := s;
    assert s[start..] == s;
    PrefixedEmpty(total);
    while start != |s|
      invariant start <= |s| && rest == s[start..]
      invariant total == Prefixed(out, ReplaceSpec(rest, replacement))
      decreases |s| - start
    {
      var written, consumed := ReplaceOne(s[start..], replacement);
      if written.Err? {
        return written;
      }
      PrefixedStep(out, written.value, total, ReplaceSpec(rest, replacement), ReplaceSpec(rest[consumed..], replacement));
      out := out + written.value;
      rest := rest[consumed..];
      start := start + consumed;
      assert rest == s[start..];
    }
    assert rest == [];
    assert out + [] == out;
    return Ok(out);
  }

  /** `utf32to8` of a concatenation is the concatenation of the encodings. */
  lemma {:induction false} EncodeConcat(a: seq<CodePoint>, b: seq<CodePoint>)
    requires Utf32To8Spec(a).Ok? && Utf32To8Spec(b).Ok?
    ensures Utf32To8Spec(a + b) == Ok(Utf32To8Spec(a).value + Utf32To8Spec(b).value)
    decreases |a|
  {
    if |a| == 0 {
      assert a + b == b;
      assert [] + Utf32To8Spec(b).value == Utf32To8Spec(b).value;
    } else {
      assert (a + b)[0] == a[0] && (a + b)[1..] == a[1..] + b;
      EncodeConcat(a[1..], b);
      var head := Append(a[0]).value;
      assert head + (Utf32To8Spec(a[1..]).value + Utf32To8Spec(b).value) == head + Utf32To8Spec(a[1..]).value + Utf32To8Spec(b).value;
    }
  }

  /** Valid UTF-8 followed by valid UTF-8 is valid UTF-8. */
  lemma ValidConcat(a: seq<Octet>, b: seq<Octet>)
    requires IsValid(a) && IsValid(b)
    ensures IsValid(a + b)
  {
    ValidIffDecodes(a);
    ValidIffDecodes(b);
    var ca := Utf8To32Spec(a).value;
    var cb := Utf8To32Spec(b).value;
    EncodeDecoded(a);
    EncodeDecoded(b);
    DecodedValid(a);
    DecodedValid(b);
    EncodeConcat(ca, cb);
    assert forall k :: 0 <= k < |ca + cb| ==> IsCodePointValid((ca + cb)[k]) by {
      forall k | 0 <= k < |ca + cb|
        ensures IsCodePointValid((ca + cb)[k])
      {
        if k < |ca| {
          assert (ca + cb)[k] == ca[k];
        } else {
          assert (ca + cb)[k] == cb[k - |ca|];
        }
      }
    }
    EncodingIsValid(ca + cb);
  }

  /** The encoding of one valid code point is valid UTF-8. */
  lemma AppendValid(cp: CodePoint)
    requires IsCodePointValid(cp)
    ensures Append(cp).Ok? && IsValid(Append(cp).value)
  {
    EncodingIsValid([cp]);
    assert [cp][1..] == [];
    assert Utf32To8Spec([cp]) == Ok(Append(cp).value + []);
    assert Append(cp).value + [] == Append(cp).value;
  }

  /** `replace_invalid` leaves valid UTF-8 as it is, whatever the replacement. */
  lemma {:induction false} ReplaceKeepsValid(s: seq<Octet>, replacement: CodePoint)
    requires IsValid(s)
    ensures ReplaceSpec(s, replacement) == Ok(s)
    decreases |s|
  {
    if |s| > 0 {
      var d := ValidateNext(s, 0);
      assert d.err == Utf8Ok;
      ReplaceKeepsValid(s[d.it..], replacement);
      assert s[..d.it] + s[d.it..] == s;
    }
  }

  /** With a valid replacement, `replace_invalid` never throws and what it
      writes is valid UTF-8. */
  lemma {:induction false} ReplaceOutputValid(s: seq<Octet>, replacement: CodePoint)
    requires IsCodePointValid(replacement)
    ensures ReplaceSpec(s, replacement).Ok? && IsValid(ReplaceSpec(s, replacement).value)
    decreases |s|
  {
    if |s| == 0 {
      assert FirstInvalid([]) == 0;
    } else {
      var d := ValidateNext(s, 0);
      AppendValid(replacement);
      var mark := Append(replacement).value;
      if d.err == Utf8Ok {
        ReplaceOutputValid(s[d.it..], replacement);
        AppendDecoded(s);
        AppendValid(d.cp);
        ValidConcat(s[..d.it], ReplaceSpec(s[d.it..], replacement).value);
      } else if d.err == NotEnoughRoom {
      } else if d.err == InvalidLead {
        ReplaceOutputValid(s[1..], replacement);
        ValidConcat(mark, ReplaceSpec(s[1..], replacement).value);
      } else {
        ReplaceOutputValid(s[1 + TrailRun(s[1..])..], replacement);
        ValidConcat(mark, ReplaceSpec(s[1 + TrailRun(s[1..])..], replacement).value);
      }
    }
  }

  /** `replace_invalid` with the default marker. */
  method ReplaceInvalidDefault(s: seq<Octet>) returns (r: Result<seq<Octet>, UtfException>)
    ensures r == ReplaceSpec(s, ReplacementMarker)
  {
    r := ReplaceInvalid(s, ReplacementMarker);
  }
}
