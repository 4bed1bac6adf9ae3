/** The checked UTF-8 codec vendored as `lemon_py/utf.hpp` (utf8-cpp):
    lead-byte classification, sequence decoding with the validity and
    overlong checks of section 3 of RFC 3629, encoding, and the conversions
    to and from UTF-16 (sections 2.1 and 2.2 of RFC 2781) and UTF-32.
    Octets are `bv8` and code points `bv32`, and a UTF-16 word is a `bv32`
    below 2^16 as `mask16` leaves it, so the
    shifts, masks, truncating casts and 32-bit wrap-around of the C++ code
    are the bit-vector operations of the model. An iterator into a byte
    range is an index into a sequence; an exception is an `Err` result. */
module Utf8 {
  import opened Wrappers

  type Octet = bv8
  type CodePoint = bv32
  /** A 16-bit UTF-16 unit, held as the `uint32_t` that `mask16` yields. */
  type Word = w: CodePoint | w <= 0xffff

  const LeadSurrogateMin: CodePoint := 0xd800
  const LeadSurrogateMax: CodePoint := 0xdbff
  const TrailSurrogateMin: CodePoint := 0xdc00
  const TrailSurrogateMax: CodePoint := 0xdfff
  /** `LEAD_SURROGATE_MIN - (0x10000 >> 10)`. */
  const LeadOffset: CodePoint := 0xd7c0
  /** `0x10000 - (LEAD_SURROGATE_MIN << 10) - TRAIL_SURROGATE_MIN`, modulo 2^32. */
  const SurrogateOffset: CodePoint := 0xfca02400
  const CodePointMax: CodePoint := 0x0010ffff

  /** The error codes of `internal::utf_error`. */
  datatype UtfError = Utf8Ok | NotEnoughRoom | InvalidLead | IncompleteSequence | OverlongSequence | InvalidCodePoint

  /** The exceptions the library API throws, with the value each carries. */
  datatype UtfException =
    | InvalidCodePointError(cp: CodePoint)
    | InvalidUtf8(octet: Octet)
    | InvalidUtf16(word: Word)
    | NotEnoughRoomError

  // ---------------------------------------------------------------- internal predicates

  /** `is_trail`: the octet is `10xxxxxx`. */
  predicate IsTrail(oc: Octet) {
    (oc >> 6) == 2
  }

  predicate IsLeadSurrogate(cp: CodePoint) {
    LeadSurrogateMin <= cp <= LeadSurrogateMax
  }

  predicate IsTrailSurrogate(cp: CodePoint) {
    TrailSurrogateMin <= cp <= TrailSurrogateMax
  }

  predicate IsSurrogate(cp: CodePoint) {
    LeadSurrogateMin <= cp <= TrailSurrogateMax
  }

  /** `is_code_point_valid`: at most U+10FFFF and not a surrogate. */
  predicate IsCodePointValid(cp: CodePoint) {
    cp <= CodePointMax && !IsSurrogate(cp)
  }

  /** `sequence_length`: the length announced by a lead octet, 0 for an octet
      that cannot start a sequence (a trail octet or `11111xxx`). */
  function SequenceLength(lead: Octet): (n: nat)
    ensures n <= 4
  {
    if lead < 0x80 then 1
    else if (lead >> 5) == 0x6 then 2
    else if (lead >> 4) == 0xe then 3
    else if (lead >> 3) == 0x1e then 4
    else 0
  }

  /** The lead-octet classes: `0xxxxxxx` starts one octet, `110xxxxx` two,
      `1110xxxx` three, `11110xxx` four, and a trail octet or `11111xxx` none. */
  lemma LeadClasses(lead: Octet)
    ensures SequenceLength(lead) == 1 <==> lead < 0x80
    ensures SequenceLength(lead) == 2 <==> 0xc0 <= lead < 0xe0
    ensures SequenceLength(lead) == 3 <==> 0xe0 <= lead < 0xf0
    ensures SequenceLength(lead) == 4 <==> 0xf0 <= lead < 0xf8
    ensures SequenceLength(lead) == 0 <==> (IsTrail(lead) || lead >= 0xf8)
  {
  }

  /** `is_overlong_sequence`: the code point has a shorter encoding than `length`. */
  predicate IsOverlongSequence(cp: CodePoint, length: nat) {
    if cp < 0x80 then length != 1
    else if cp < 0x800 then length != 2
    else if cp < 0x10000 then length != 3
    else false
  }

  // ---------------------------------------------------------------- get_sequence_N and validate_next

  /** The state a decoding step leaves: the error code, where the iterator
      stands, and the code point out-parameter. */
  datatype Step = Step(err: UtfError, it: nat, cp: CodePoint)

  /** `increase_safely`: advance to the next octet, which must exist and be a trail octet. */
  function IncreaseSafely(s: seq<Octet>, it: nat): (r: UtfError)
    requires it < |s|
  {
    if it + 1 == |s| then NotEnoughRoom
    else if !IsTrail(s[it + 1]) then IncompleteSequence
    else Utf8Ok
  }

  function Low6(oc: Octet): CodePoint {
    (oc as CodePoint) & 0x3f
  }

  /** `get_sequence_1` on the range `r` from the iterator to the end; the
      returned position, relative to the range, stays on the octet. */
  function GetSequence1(r: seq<Octet>): Step {
    if |r| == 0 then Step(NotEnoughRoom, 0, 0) else Step(Utf8Ok, 0, r[0] as CodePoint)
  }

  /** `get_sequence_2`: ends on the last octet read. */
  function GetSequence2(r: seq<Octet>): Step {
    if |r| == 0 then Step(NotEnoughRoom, 0, 0)
    else
      var cp := r[0] as CodePoint;
      if IncreaseSafely(r, 0) != Utf8Ok then Step(IncreaseSafely(r, 0), 1, cp)
      else Step(Utf8Ok, 1, ((cp << 6) & 0x7ff) + Low6(r[1]))
  }

  /** `get_sequence_3`. */
  function GetSequence3(r: seq<Octet>): Step {
    if |r| == 0 then Step(NotEnoughRoom, 0, 0)
    else
      var cp := r[0] as CodePoint;
      if IncreaseSafely(r, 0) != Utf8Ok then Step(IncreaseSafely(r, 0), 1, cp)
      else
        var cp' := ((cp << 12) & 0xffff) + (((r[1] as CodePoint) << 6) & 0xfff);
        if IncreaseSafely(r, 1) != Utf8Ok then Step(IncreaseSafely(r, 1), 2, cp')
        else Step(Utf8Ok, 2, cp' + Low6(r[2]))
  }

  /** `get_sequence_4`. */
  function GetSequence4(r: seq<Octet>): Step {
    if |r| == 0 then Step(NotEnoughRoom, 0, 0)
    else
      var cp := r[0] as CodePoint;
      if IncreaseSafely(r, 0) != Utf8Ok then Step(IncreaseSafely(r, 0), 1, cp)
      else
        var cp' := ((cp << 18) & 0x1fffff) + (((r[1] as CodePoint) << 12) & 0x3ffff);
        if IncreaseSafely(r, 1) != Utf8Ok then Step(IncreaseSafely(r, 1), 2, cp')
        else
          var cp'' := cp' + (((r[2] as CodePoint) << 6) & 0xfff);
          if IncreaseSafely(r, 2) != Utf8Ok then Step(IncreaseSafely(r, 2), 3, cp'')
          else Step(Utf8Ok, 3, cp'' + Low6(r[3]))
  }

  /** The `switch` of `validate_next` over the announced length. */
  function GetSequence(r: seq<Octet>, length: nat): Step
    requires 1 <= length <= 4
  {
    if length == 1 then GetSequence1(r)
    else if length == 2 then GetSequence2(r)
    else if length == 3 then GetSequence3(r)
    else GetSequence4(r)
  }

  /** `validate_next`: decodes the sequence at `it`. On success the iterator
      is past the sequence and the code point is written; on failure the
      iterator is restored and the out-parameter is left alone (every caller
      passes 0, so it is 0 here). */
  function ValidateNext(s: seq<Octet>, it: nat): (r: Step)
    requires it <= |s|
    ensures r.err == Utf8Ok ==> it < |s| && r.it == it + SequenceLength(s[it]) <= |s|
    ensures r.err == Utf8Ok ==> IsCodePointValid(r.cp) && !IsOverlongSequence(r.cp, SequenceLength(s[it]))
    ensures r.err != Utf8Ok ==> r.it == it && r.cp == 0
    ensures r.err == InvalidLead <==> it < |s| && SequenceLength(s[it]) == 0
    ensures it == |s| ==> r.err == NotEnoughRoom
  {
    if it == |s| then Step(NotEnoughRoom, it, 0)
    else
      var length := SequenceLength(s[it]);
      if length == 0 then Step(InvalidLead, it, 0)
      else
        var d := GetSequence(s[it..], length);
        if d.err != Utf8Ok then Step(d.err, it, 0)
        else if !IsCodePointValid(d.cp) then Step(InvalidCodePoint, it, 0)
        else if IsOverlongSequence(d.cp, length) then Step(OverlongSequence, it, 0)
        else Step(Utf8Ok, it + d.it + 1, d.cp)
  }

  // ---------------------------------------------------------------- append

  /** `append`: the UTF-8 encoding of a code point, throwing `invalid_code_point`
      for one that is not valid. The length is 1, 2, 3 or 4 octets, split at
      U+0080, U+0800 and U+10000. */
  function Append(cp: CodePoint): (r: Result<seq<Octet>, UtfException>)
    ensures r.Err? <==> !IsCodePointValid(cp)
    ensures r.Err? ==> r.error == InvalidCodePointError(cp)
    ensures r.Ok? ==> |r.value| == (if cp < 0x80 then 1 else if cp < 0x800 then 2 else if cp < 0x10000 then 3 else 4)
  {
    if !IsCodePointValid(cp) then Err(InvalidCodePointError(cp))
    else if cp < 0x80 then Ok([cp as Octet])
    else if cp < 0x800 then
      Ok([((cp >> 6) | 0xc0) as Octet, ((cp & 0x3f) | 0x80) as Octet])
    else if cp < 0x10000 then
      Ok([((cp >> 12) | 0xe0) as Octet, (((cp >> 6) & 0x3f) | 0x80) as Octet, ((cp & 0x3f) | 0x80) as Octet])
    else
      Ok([((cp >> 18) | 0xf0) as Octet, (((cp >> 12) & 0x3f) | 0x80) as Octet,
          (((cp >> 6) & 0x3f) | 0x80) as Octet, ((cp & 0x3f) | 0x80) as Octet])
  }

  /** The encoding's lead octet announces the encoding's length. */
  lemma AppendLeadLength(cp: CodePoint)
    requires IsCodePointValid(cp)
    ensures SequenceLength(Append(cp).value[0]) == |Append(cp).value|
    ensures forall k :: 1 <= k < |Append(cp).value| ==> IsTrail(Append(cp).value[k])
  {
  }

  /** Decoding an encoding, per length: the shape of the octets that
      `validate_next` accepts, the octets `append` writes, and the bit-level
      identities between the two. */
  lemma GetTwo(b0: Octet, b1: Octet, rest: seq<Octet>, cp: CodePoint)
    requires IsTrail(b1)
    requires cp == (((b0 as CodePoint) << 6) & 0x7ff) + Low6(b1)
    ensures GetSequence2([b0, b1] + rest) == Step(Utf8Ok, 1, cp)
  {
    var s := [b0, b1] + rest;
    assert s[0] == b0 && s[1] == b1;
  }

  lemma GetThree(b0: Octet, b1: Octet, b2: Octet, rest: seq<Octet>, cp: CodePoint)
    requires IsTrail(b1) && IsTrail(b2)
    requires cp == (((b0 as CodePoint) << 12) & 0xffff) + (((b1 as CodePoint) << 6) & 0xfff) + Low6(b2)
    ensures GetSequence3([b0, b1, b2] + rest) == Step(Utf8Ok, 2, cp)
  {
    var s := [b0, b1, b2] + rest;
    assert s[0] == b0 && s[1] == b1 && s[2] == b2;
  }

  lemma GetFour(b0: Octet, b1: Octet, b2: Octet, b3: Octet, rest: seq<Octet>, cp: CodePoint)
    requires IsTrail(b1) && IsTrail(b2) && IsTrail(b3)
    requires cp == (((b0 as CodePoint) << 18) & 0x1fffff) + (((b1 as CodePoint) << 12) & 0x3ffff)
      + (((b2 as CodePoint) << 6) & 0xfff) + Low6(b3)
    ensures GetSequence4([b0, b1, b2, b3] + rest) == Step(Utf8Ok, 3, cp)
  {
    var s := [b0, b1, b2, b3] + rest;
    assert s[0] == b0 && s[1] == b1 && s[2] == b2 && s[3] == b3;
  }

  /** A complete, valid, shortest sequence of the announced length is accepted. */
  lemma AcceptTwo(s: seq<Octet>, cp: CodePoint)
    requires |s| >= 2 && SequenceLength(s[0]) == 2 && GetSequence2(s) == Step(Utf8Ok, 1, cp)
    requires IsCodePointValid(cp) && !IsOverlongSequence(cp, 2)
    ensures ValidateNext(s, 0) == Step(Utf8Ok, 2, cp)
  {
  }

  lemma AcceptThree(s: seq<Octet>, cp: CodePoint)
    requires |s| >= 3 && SequenceLength(s[0]) == 3 && GetSequence3(s) == Step(Utf8Ok, 2, cp)
    requires IsCodePointValid(cp) && !IsOverlongSequence(cp, 3)
    ensures ValidateNext(s, 0) == Step(Utf8Ok, 3, cp)
  {
  }

  lemma AcceptFour(s: seq<Octet>, cp: CodePoint)
    requires |s| >= 4 && SequenceLength(s[0]) == 4 && GetSequence4(s) == Step(Utf8Ok, 3, cp)
    requires IsCodePointValid(cp) && !IsOverlongSequence(cp, 4)
    ensures ValidateNext(s, 0) == Step(Utf8Ok, 4, cp)
  {
  }

  lemma BitsTwo(cp: CodePoint)
    requires 0x80 <= cp < 0x800
    ensures var b0, b1 := ((cp >> 6) | 0xc0) as Octet, ((cp & 0x3f) | 0x80) as Octet;
      SequenceLength(b0) == 2 && IsTrail(b1) && (((b0 as CodePoint) << 6) & 0x7ff) + Low6(b1) == cp
  {
  }

  lemma BitsThree(cp: CodePoint, b0: Octet, b1: Octet, b2: Octet)
    requires 0x800 <= cp < 0x10000
    requires b0 == ((cp >> 12) | 0xe0) as Octet && b1 == (((cp >> 6) & 0x3f) | 0x80) as Octet
    requires b2 == ((cp & 0x3f) | 0x80) as Octet
    ensures SequenceLength(b0) == 3 && IsTrail(b1) && IsTrail(b2)
    ensures (((b0 as CodePoint) << 12) & 0xffff) + (((b1 as CodePoint) << 6) & 0xfff) + Low6(b2) == cp
  {
  }

  lemma BitsFour(cp: CodePoint, b0: Octet, b1: Octet, b2: Octet, b3: Octet)
    requires 0x10000 <= cp <= CodePointMax
    requires b0 == ((cp >> 18) | 0xf0) as Octet && b1 == (((cp >> 12) & 0x3f) | 0x80) as Octet
    requires b2 == (((cp >> 6) & 0x3f) | 0x80) as Octet && b3 == ((cp & 0x3f) | 0x80) as Octet
    ensures SequenceLength(b0) == 4 && IsTrail(b1) && IsTrail(b2) && IsTrail(b3)
    ensures (((b0 as CodePoint) << 18) & 0x1fffff) + (((b1 as CodePoint) << 12) & 0x3ffff)
      + (((b2 as CodePoint) << 6) & 0xfff) + Low6(b3) == cp
  {
  }

  lemma DecodeTwoOctets(b0: Octet, b1: Octet, rest: seq<Octet>, cp: CodePoint)
    requires SequenceLength(b0) == 2 && IsTrail(b1)
    requires cp == (((b0 as CodePoint) << 6) & 0x7ff) + Low6(b1)
    requires IsCodePointValid(cp) && !IsOverlongSequence(cp, 2)
    ensures ValidateNext([b0, b1] + rest, 0) == Step(Utf8Ok, 2, cp)
  {
    var s := [b0, b1] + rest;
    assert s[0] == b0;
    GetTwo(b0, b1, rest, cp);
    AcceptTwo(s, cp);
  }

  lemma DecodeThreeOctets(b0: Octet, b1: Octet, b2: Octet, rest: seq<Octet>, cp: CodePoint)
    requires SequenceLength(b0) == 3 && IsTrail(b1) && IsTrail(b2)
    requires cp == (((b0 as CodePoint) << 12) & 0xffff) + (((b1 as CodePoint) << 6) & 0xfff) + Low6(b2)
    requires IsCodePointValid(cp) && !IsOverlongSequence(cp, 3)
    ensures ValidateNext([b0, b1, b2] + rest, 0) == Step(Utf8Ok, 3, cp)
  {
    var s := [b0, b1, b2] + rest;
    assert s[0] == b0;
    GetThree(b0, b1, b2, rest, cp);
    AcceptThree(s, cp);
  }

  lemma DecodeFourOctets(b0: Octet, b1: Octet, b2: Octet, b3: Octet, rest: seq<Octet>, cp: CodePoint)
    requires SequenceLength(b0) == 4 && IsTrail(b1) && IsTrail(b2) && IsTrail(b3)
    requires cp == (((b0 as CodePoint) << 18) & 0x1fffff) + (((b1 as CodePoint) << 12) & 0x3ffff)
      + (((b2 as CodePoint) << 6) & 0xfff) + Low6(b3)
    requires IsCodePointValid(cp) && !IsOverlongSequence(cp, 4)
    ensures ValidateNext([b0, b1, b2, b3] + rest, 0) == Step(Utf8Ok, 4, cp)
  {
    var s := [b0, b1, b2, b3] + rest;
    assert s[0] == b0;
    GetFour(b0, b1, b2, b3, rest, cp);
    AcceptFour(s, cp);
  }

  lemma DecodeAppend1(cp: CodePoint, rest: seq<Octet>)
    requires IsCodePointValid(cp) && cp < 0x80
    ensures ValidateNext(Append(cp).value + rest, 0) == Step(Utf8Ok, 1, cp)
  {
    var s := Append(cp).value + rest;
    assert s[0] == cp as Octet;
  }

  lemma DecodeAppend2(cp: CodePoint, rest: seq<Octet>)
    requires IsCodePointValid(cp) && 0x80 <= cp < 0x800
    ensures ValidateNext(Append(cp).value + rest, 0) == Step(Utf8Ok, 2, cp)
  {
    BitsTwo(cp);
    DecodeTwoOctets(((cp >> 6) | 0xc0) as Octet, ((cp & 0x3f) | 0x80) as Octet, rest, cp);
  }

  lemma DecodeAppend3(cp: CodePoint, rest: seq<Octet>)
    requires IsCodePointValid(cp) && 0x800 <= cp < 0x10000
    ensures ValidateNext(Append(cp).value + rest, 0) == Step(Utf8Ok, 3, cp)
  {
    var b0, b1 := ((cp >> 12) | 0xe0) as Octet, (((cp >> 6) & 0x3f) | 0x80) as Octet;
    var b2 := ((cp & 0x3f) | 0x80) as Octet;
    assert Append(cp).value == [b0, b1, b2];
    BitsThree(cp, b0, b1, b2);
    DecodeThreeOctets(b0, b1, b2, rest, cp);
  }

  lemma DecodeAppend4(cp: CodePoint, rest: seq<Octet>)
    requires IsCodePointValid(cp) && 0x10000 <= cp
    ensures ValidateNext(Append(cp).value + rest, 0) == Step(Utf8Ok, 4, cp)
  {
    var b0, b1 := ((cp >> 18) | 0xf0) as Octet, (((cp >> 12) & 0x3f) | 0x80) as Octet;
    var b2, b3 := (((cp >> 6) & 0x3f) | 0x80) as Octet, ((cp & 0x3f) | 0x80) as Octet;
    assert Append(cp).value == [b0, b1, b2, b3];
    BitsFour(cp, b0, b1, b2, b3);
    DecodeFourOctets(b0, b1, b2, b3, rest, cp);
  }

  /** `validate_next` decodes what `append` encodes, whatever follows it. */
  lemma DecodeAppend(cp: CodePoint, rest: seq<Octet>)
    requires IsCodePointValid(cp)
    ensures ValidateNext(Append(cp).value + rest, 0) == Step(Utf8Ok, |Append(cp).value|, cp)
  {
    if cp < 0x80 {
      DecodeAppend1(cp, rest);
    } else if cp < 0x800 {
      DecodeAppend2(cp, rest);
    } else if cp < 0x10000 {
      DecodeAppend3(cp, rest);
    } else {
      DecodeAppend4(cp, rest);
    }
  }

  /** What a successful `get_sequence_N` has read: trail octets, combined. */
  lemma GotTwo(s: seq<Octet>)
    requires 1 <= |s| && GetSequence2(s).err == Utf8Ok
    ensures |s| >= 2 && IsTrail(s[1])
    ensures GetSequence2(s).cp == (((s[0] as CodePoint) << 6) & 0x7ff) + Low6(s[1])
  {
  }

  lemma GotThree(s: seq<Octet>)
    requires 1 <= |s| && GetSequence3(s).err == Utf8Ok
    ensures |s| >= 3 && IsTrail(s[1]) && IsTrail(s[2])
    ensures GetSequence3(s).cp == (((s[0] as CodePoint) << 12) & 0xffff) + (((s[1] as CodePoint) << 6) & 0xfff) + Low6(s[2])
  {
  }

  lemma GotFour(s: seq<Octet>) returns (b0: Octet, b1: Octet, b2: Octet, b3: Octet)
    requires 1 <= |s| && GetSequence4(s).err == Utf8Ok
    ensures |s| >= 4 && s[..4] == [b0, b1, b2, b3] && b0 == s[0]
    ensures IsTrail(b1) && IsTrail(b2) && IsTrail(b3)
    ensures GetSequence4(s).cp == (((b0 as CodePoint) << 18) & 0x1fffff) + (((b1 as CodePoint) << 12) & 0x3ffff)
      + (((b2 as CodePoint) << 6) & 0xfff) + Low6(b3)
  {
    b0, b1, b2, b3 := s[0], s[1], s[2], s[3];
    assert s[..4] == [b0, b1, b2, b3];
  }

  /** A shortest sequence is the encoding of the code point it carries. */
  lemma UnbitsTwo(b0: Octet, b1: Octet, cp: CodePoint)
    requires SequenceLength(b0) == 2 && IsTrail(b1)
    requires cp == (((b0 as CodePoint) << 6) & 0x7ff) + Low6(b1)
    requires !IsOverlongSequence(cp, 2)
    ensures 0x80 <= cp < 0x800
    ensures ((cp >> 6) | 0xc0) as Octet == b0 && ((cp & 0x3f) | 0x80) as Octet == b1
  {
  }

  lemma UnbitsThree(b0: Octet, b1: Octet, b2: Octet, cp: CodePoint)
    requires SequenceLength(b0) == 3 && IsTrail(b1) && IsTrail(b2)
    requires cp == (((b0 as CodePoint) << 12) & 0xffff) + (((b1 as CodePoint) << 6) & 0xfff) + Low6(b2)
    requires !IsOverlongSequence(cp, 3)
    ensures 0x800 <= cp < 0x10000
    ensures ((cp >> 12) | 0xe0) as Octet == b0 && (((cp >> 6) & 0x3f) | 0x80) as Octet == b1
    ensures ((cp & 0x3f) | 0x80) as Octet == b2
  {
  }

  lemma UnbitsFour(b0: Octet, b1: Octet, b2: Octet, b3: Octet, cp: CodePoint)
    requires SequenceLength(b0) == 4 && IsTrail(b1) && IsTrail(b2) && IsTrail(b3)
    requires cp == (((b0 as CodePoint) << 18) & 0x1fffff) + (((b1 as CodePoint) << 12) & 0x3ffff)
      + (((b2 as CodePoint) << 6) & 0xfff) + Low6(b3)
    requires IsCodePointValid(cp) && !IsOverlongSequence(cp, 4)
    ensures 0x10000 <= cp
    ensures ((cp >> 18) | 0xf0) as Octet == b0 && (((cp >> 12) & 0x3f) | 0x80) as Octet == b1
    ensures (((cp >> 6) & 0x3f) | 0x80) as Octet == b2 && ((cp & 0x3f) | 0x80) as Octet == b3
  {
  }

  lemma AppendOfFour(b0: Octet, b1: Octet, b2: Octet, b3: Octet, cp: CodePoint)
    requires SequenceLength(b0) == 4 && IsTrail(b1) && IsTrail(b2) && IsTrail(b3)
    requires cp == (((b0 as CodePoint) << 18) & 0x1fffff) + (((b1 as CodePoint) << 12) & 0x3ffff)
      + (((b2 as CodePoint) << 6) & 0xfff) + Low6(b3)
    requires IsCodePointValid(cp) && !IsOverlongSequence(cp, 4)
    ensures Append(cp) == Ok([b0, b1, b2, b3])
  {
    UnbitsFour(b0, b1, b2, b3, cp);
  }

  lemma AppendDecoded1(s: seq<Octet>, cp: CodePoint)
    requires 1 <= |s| && SequenceLength(s[0]) == 1 && cp == s[0] as CodePoint
    ensures Append(cp) == Ok(s[..1])
  {
    assert s[0] < 0x80;
    assert (cp as Octet) == s[0];
    assert s[..1] == [s[0]];
  }

  lemma AppendDecoded2(s: seq<Octet>, cp: CodePoint)
    requires 1 <= |s| && SequenceLength(s[0]) == 2 && GetSequence2(s).err == Utf8Ok
    requires cp == GetSequence2(s).cp && !IsOverlongSequence(cp, 2)
    ensures |s| >= 2 && Append(cp) == Ok(s[..2])
  {
    GotTwo(s);
    UnbitsTwo(s[0], s[1], cp);
    assert s[..2] == [s[0], s[1]];
  }

  lemma AppendDecoded3(s: seq<Octet>, cp: CodePoint)
    requires 1 <= |s| && SequenceLength(s[0]) == 3 && GetSequence3(s).err == Utf8Ok
    requires cp == GetSequence3(s).cp && IsCodePointValid(cp) && !IsOverlongSequence(cp, 3)
    ensures |s| >= 3 && Append(cp) == Ok(s[..3])
  {
    GotThree(s);
    UnbitsThree(s[0], s[1], s[2], cp);
    assert s[..3] == [s[0], s[1], s[2]];
  }

  lemma AppendDecoded4(s: seq<Octet>, b0: Octet, b1: Octet, b2: Octet, b3: Octet, cp: CodePoint)
    requires SequenceLength(b0) == 4 && IsTrail(b1) && IsTrail(b2) && IsTrail(b3)
    requires cp == (((b0 as CodePoint) << 18) & 0x1fffff) + (((b1 as CodePoint) << 12) & 0x3ffff)
      + (((b2 as CodePoint) << 6) & 0xfff) + Low6(b3)
    requires IsCodePointValid(cp) && !IsOverlongSequence(cp, 4)
    requires |s| >= 4 && s[..4] == [b0, b1, b2, b3]
    ensures Append(cp) == Ok(s[..4])
  {
    AppendOfFour(b0, b1, b2, b3, cp);
  }

  /** `append` re-encodes exactly the octets `validate_next` accepted: together
      with `DecodeAppend`, every valid sequence has exactly one encoding. */
  lemma AppendDecoded(s: seq<Octet>)
    requires ValidateNext(s, 0).err == Utf8Ok
    ensures Append(ValidateNext(s, 0).cp) == Ok(s[..ValidateNext(s, 0).it])
  {
    var r := ValidateNext(s, 0);
    var length := SequenceLength(s[0]);
    assert GetSequence(s[0..], length).err == Utf8Ok && GetSequence(s[0..], length).cp == r.cp;
    if length == 1 {
      AppendDecoded1(s, r.cp);
    } else if length == 2 {
      AppendDecoded2(s, r.cp);
    } else if length == 3 {
      AppendDecoded3(s, r.cp);
    } else {
      var b0, b1, b2, b3 := GotFour(s);
      AppendDecoded4(s, b0, b1, b2, b3, r.cp);
    }
  }

  function Shift(r: Step, offset: nat): Step {
    Step(r.err, r.it + offset, r.cp)
  }

  /** `validate_next` at `i` looks only at the octets from `i` on. */
  lemma ValidateNextShift(s: seq<Octet>, i: nat)
    requires i <= |s|
    ensures ValidateNext(s, i) == Shift(ValidateNext(s[i..], 0), i)
  {
    var t := s[i..];
    assert t[0..] == t;
    if i < |s| {
      assert t[0] == s[i];
    }
  }

  // ---------------------------------------------------------------- next

  /** `next`: decodes the code point at `it` and the position after it,
      throwing `not_enough_room` at the end of the range or for a truncated
      sequence, `invalid_utf8` with the lead octet for a malformed or
      overlong sequence, and `invalid_code_point` for a surrogate or a value
      above U+10FFFF. The last carries the out-parameter `validate_next` left
      alone, which is 0. */
  function Next(s: seq<Octet>, it: nat): (r: Result<(CodePoint, nat), UtfException>)
    requires it <= |s|
    ensures r.Ok? <==> ValidateNext(s, it).err == Utf8Ok
    ensures r.Ok? ==> r.value == (ValidateNext(s, it).cp, ValidateNext(s, it).it)
    ensures r.Err? ==> match ValidateNext(s, it).err
      case NotEnoughRoom => r.error == NotEnoughRoomError
      case InvalidCodePoint => r.error == InvalidCodePointError(0)
      case _ => it < |s| && r.error == InvalidUtf8(s[it])
  {
    var d := ValidateNext(s, it);
    match d.err
    case Utf8Ok => Ok((d.cp, d.it))
    case NotEnoughRoom => Err(NotEnoughRoomError)
    case InvalidCodePoint => Err(InvalidCodePointError(d.cp))
    case _ => Err(InvalidUtf8(s[it]))
  }

  /** `next` decodes what `append` wrote, at any position of the range. */
  lemma NextAppend(pre: seq<Octet>, cp: CodePoint, rest: seq<Octet>)
    requires IsCodePointValid(cp)
    ensures Next(pre + Append(cp).value + rest, |pre|) == Ok((cp, |pre| + |Append(cp).value|))
  {
    var s := pre + Append(cp).value + rest;
    assert s[|pre|..] == Append(cp).value + rest;
    ValidateNextShift(s, |pre|);
    DecodeAppend(cp, rest);
  }

  /** `next` at `i` looks only at the octets from `i` on. */
  lemma NextShift(s: seq<Octet>, i: nat)
    requires i <= |s|
    ensures Next(s, i).Ok? <==> Next(s[i..], 0).Ok?
    ensures Next(s, i).Ok? ==> Next(s, i).value == (Next(s[i..], 0).value.0, Next(s[i..], 0).value.1 + i)
    ensures Next(s, i).Err? ==> Next(s, i).error == Next(s[i..], 0).error
  {
    ValidateNextShift(s, i);
    if i < |s| {
      assert s[i..][0] == s[i];
    }
  }
}
