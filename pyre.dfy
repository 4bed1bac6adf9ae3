/** The two fixed regular expressions the lexer compiler searches with,
    `\s+:` (used with `re.split(..., 1)`) and `\s+(:)[:]?\s+` (used with
    `re.search`), as leftmost-match searches over a string. `MatchAt` is the
    reference meaning of "the pattern matches at `p` with its first colon at
    `q`"; the searches are proved to return the leftmost such match. */
module PyRe {
  import opened Wrappers
  import opened PyStr

  datatype Pattern =
    | SpaceColon   // \s+:
    | IntroColon   // \s+(:)[:]?\s+

  /** What the pattern requires from its first colon at `q` onwards. */
  predicate TailAt(s: string, q: nat, pat: Pattern)
    requires q < |s|
  {
    s[q] == ':' &&
    (pat.SpaceColon?
     || (q + 1 < |s| && IsSpace(s[q + 1]))
     || (q + 2 < |s| && s[q + 1] == ':' && IsSpace(s[q + 2])))
  }

  /** The pattern matches starting at `p`, the whitespace run `s[p..q]` ending at the colon `s[q]`. */
  predicate MatchAt(s: string, pat: Pattern, p: nat, q: nat) {
    p < q < |s| && AllSpace(s[p..q]) && TailAt(s, q, pat)
  }

  /** The end of the whitespace run that starts at `p`. */
  function RunEnd(s: string, p: nat): (q: nat)
    requires p <= |s|
    ensures p <= q <= |s| && AllSpace(s[p..q])
    ensures q < |s| ==> !IsSpace(s[q])
    decreases |s| - p
  {
    if p < |s| && IsSpace(s[p]) then RunEnd(s, p + 1) else p
  }

  /** A match starting inside a whitespace run has its colon where the run ends. */
  lemma MatchInsideRun(s: string, pat: Pattern, p: nat, i: nat, q': nat)
    requires p <= |s| && p <= i < RunEnd(s, p) && MatchAt(s, pat, i, q')
    ensures q' == RunEnd(s, p)
  {
    var q := RunEnd(s, p);
    assert forall k :: p <= k < q ==> IsSpace(s[k]) by {
      forall k | p <= k < q ensures IsSpace(s[k]) { assert s[p..q][k - p] == s[k]; }
    }
    assert forall k :: i <= k < q' ==> IsSpace(s[k]) by {
      forall k | i <= k < q' ensures IsSpace(s[k]) { assert s[i..q'][k - i] == s[k]; }
    }
  }

  /** The leftmost match at or after `p`, as (start, colon). */
  function SearchFrom(s: string, pat: Pattern, p: nat): (r: Option<(nat, nat)>)
    requires p <= |s|
    ensures r.Some? ==> p <= r.value.0 && MatchAt(s, pat, r.value.0, r.value.1)
    ensures forall i: nat, q: nat :: p <= i && (r.Some? ==> i < r.value.0) ==> !MatchAt(s, pat, i, q)
    decreases |s| - p
  {
    if p == |s| then None
    else if !IsSpace(s[p]) then
      assert forall q: nat :: !MatchAt(s, pat, p, q) by {
        forall q: nat | p < q < |s| ensures !AllSpace(s[p..q]) { assert s[p..q][0] == s[p]; }
      }
      SearchFrom(s, pat, p + 1)
    else
      var q := RunEnd(s, p);
      assert forall i: nat, q': nat :: p <= i < q && MatchAt(s, pat, i, q') ==> q' == q by {
        forall i: nat, q': nat | p <= i < q && MatchAt(s, pat, i, q') ensures q' == q {
          MatchInsideRun(s, pat, p, i, q');
        }
      }
      if q < |s| && TailAt(s, q, pat) then Some((p, q))
      else SearchFrom(s, pat, q)
  }

  /** `re.search(pat, s)`. */
  function Search(s: string, pat: Pattern): (r: Option<(nat, nat)>)
    ensures r.Some? ==> MatchAt(s, pat, r.value.0, r.value.1)
    ensures forall i: nat, q: nat :: (r.Some? ==> i < r.value.0) ==> !MatchAt(s, pat, i, q)
  {
    SearchFrom(s, pat, 0)
  }

  /** A match's colon is determined by its start. */
  lemma MatchEndUnique(s: string, pat: Pattern, p: nat, q1: nat, q2: nat)
    requires MatchAt(s, pat, p, q1) && MatchAt(s, pat, p, q2)
    ensures q1 == q2
  {
    assert forall k :: p <= k < q1 ==> IsSpace(s[k]) by {
      forall k | p <= k < q1 ensures IsSpace(s[k]) { assert s[p..q1][k - p] == s[k]; }
    }
    assert forall k :: p <= k < q2 ==> IsSpace(s[k]) by {
      forall k | p <= k < q2 ensures IsSpace(s[k]) { assert s[p..q2][k - p] == s[k]; }
    }
  }

  /** A match whose run is preceded by a non-space and with no colon before
      its own is the leftmost one. */
  lemma LeftmostMatch(s: string, pat: Pattern, start: nat, q: nat)
    requires 1 <= start && MatchAt(s, pat, start, q) && !IsSpace(s[start - 1])
    requires forall k :: 0 <= k < q ==> s[k] != ':'
    ensures Search(s, pat) == Some((start, q))
  {
    var r := Search(s, pat);
    assert r.Some?;
    var i := r.value.0;
    var q' := r.value.1;
    assert q <= q';
    AllSpaceAt(s, i, q', start - 1);
    assert i == start;
    MatchEndUnique(s, pat, start, q', q);
  }

  /** `re.split('\s+:', s, 1)`: the text before the match and the text after it. */
  function SplitSpaceColon(s: string): (r: Option2)
    ensures r.Whole? <==> forall i: nat, q: nat :: !MatchAt(s, SpaceColon, i, q)
    ensures r.Split? ==> exists p: nat, q: nat ::
      MatchAt(s, SpaceColon, p, q) && r.before == s[..p] && r.after == s[q + 1..]
      && forall i: nat, q': nat :: i < p ==> !MatchAt(s, SpaceColon, i, q')
  {
    match Search(s, SpaceColon)
    case None => Whole
    case Some((p, q)) => Split(s[..p], s[q + 1..])
  }
}
