/** The prototype `Lexer` of `crust/PrefixTree.hpp`. Its skip loop uses
    `regex_search`, which may find a match anywhere after the cursor, and
    moves the cursor by the length of that match only; `nextLiteral` looks
    up the prefix tree and discards the result, and `nextValue` finds
    nothing, so `next` never yields a token. */
module CrustLexer {
  import opened Wrappers
  import opened PrefixTree

  /** `regex_search` of a pattern over the input from a position: the
      offset (from the position) and length of the leftmost match. */
  type Searcher = (string, string, nat) -> Option<(nat, nat)>

  /** A match found lies inside the rest of the input. */
  ghost predicate SearcherFits(search: Searcher) {
    forall pattern: string, s: string, pos: nat ::
      pos <= |s| && search(pattern, s, pos).Some? ==> pos + search(pattern, s, pos).value.0 + search(pattern, s, pos).value.1 <= |s|
  }

  /** The empty `Token` class of the prototype. */
  datatype CrustToken = CrustToken

  /** What `next` can run into instead of returning: the skip loop that
      would repeat for ever, and `tryValue` dereferencing the end of the
      input. */
  datatype CrustFault = SkipNeverEnds | ReadsPastEnd

  class Lexer {
    const input: string
    var curPos: nat
    const literals: PTNode
    const skips: seq<string>
    const search: Searcher

    ghost predicate Valid()
      reads this
    {
      curPos <= |input| && SearcherFits(search)
    }

    constructor(input: string, literals: PTNode, skips: seq<string>, search: Searcher)
      requires SearcherFits(search)
      ensures Valid()
      ensures this.input == input && this.literals == literals && this.skips == skips && this.search == search && curPos == 0
    {
      this.input := input;
      curPos := 0;
      this.literals := literals;
      this.skips := skips;
      this.search := search;
    }

    /** `advanceBy(size_t)`: moves exactly `count` characters, which the C++
        code does not check against the end. */
    method AdvanceByCount(count: nat)
      requires Valid() && curPos + count <= |input|
      modifies this
      ensures Valid() && curPos == old(curPos) + count
    {
      var left := count;
      while left != 0
        invariant curPos + left == old(curPos) + count
      {
        curPos := curPos + 1;
        left := left - 1;
      }
    }

    /** `advanceBy(string_view)`: moves by the view's length but stops at
        the end of the input. */
    method AdvanceByView(sv: string)
      requires Valid()
      modifies this
      ensures Valid()
      ensures curPos == old(curPos) + (if |sv| <= |input| - old(curPos) then |sv| else |input| - old(curPos))
    {
      var left: nat := |sv|;
      while left != 0 && curPos != |input|
        invariant old(curPos) <= curPos <= |input|
        invariant left + (curPos - old(curPos)) == |sv|
        decreases left
      {
        curPos := curPos + 1;
        left := left - 1;
      }
    }

    /** One pass of the skip loop over the patterns from index `i`. */
    ghost function PassFrom(i: nat, pos: nat): (r: (bool, nat))
      requires pos <= |input| && SearcherFits(search)
      ensures pos <= r.1 <= |input|
      ensures !r.0 ==> r.1 == pos
      decreases |skips| - i
    {
      if i >= |skips| then (false, pos)
      else match search(skips[i], input, pos)
        case Some(m) => (true, PassFrom(i + 1, pos + m.1).1)
        case None => PassFrom(i + 1, pos)
    }

    /** Where `skip` leaves the cursor; `None` when a pass matched without
        moving it, after which the C++ loop repeats for ever. */
    ghost function SkipTo(pos: nat): (r: Option<nat>)
      requires pos <= |input| && SearcherFits(search)
      ensures r.Some? ==> pos <= r.value <= |input| && !PassFrom(0, r.value).0
      decreases |input| - pos
    {
      var (skipped, next) := PassFrom(0, pos);
      if !skipped then Some(pos)
      else if next == pos then None
      else SkipTo(next)
    }

    method SkipPass() returns (skipped: bool)
      requires Valid()
      modifies this
      ensures Valid()
      ensures (skipped, curPos) == PassFrom(0, old(curPos))
    {
      skipped := false;
      var i := 0;
      ghost var start := curPos;
      while i < |skips|
        invariant Valid() && i <= |skips| && start <= curPos
        invariant PassFrom(0, start) == (skipped || PassFrom(i, curPos).0, PassFrom(i, curPos).1)
      {
        var m := search(skips[i], input, curPos);
        if m.Some? {
          skipped := true;
          AdvanceByCount(m.value.1);
        }
        i := i + 1;
      }
    }

    /** `skip`, stopping where the C++ loop would not. */
    method Skip() returns (loops: bool)
      requires Valid()
      modifies this
      ensures Valid() && old(curPos) <= curPos
      ensures loops <==> SkipTo(old(curPos)).None?
      ensures !loops ==> curPos == SkipTo(old(curPos)).value
    {
      var skipped := true;
      ghost var start := curPos;
      while skipped
        invariant Valid() && start <= curPos
        invariant skipped ==> SkipTo(start) == SkipTo(curPos)
        invariant !skipped ==> SkipTo(start) == Some(curPos)
        decreases |input| - curPos + (if skipped then 1 else 0)
      {
        var before := curPos;
        skipped := SkipPass();
        if skipped && curPos == before {
          return true;
        }
      }
      return false;
    }

    /** `nextLiteral`: the lookup needs a character at the cursor, and its
        result is dropped. */
    method NextLiteral() returns (r: Result<Option<CrustToken>, CrustFault>)
      requires Valid()
      ensures r == if curPos == |input| then Err(ReadsPastEnd) else Ok(None)
    {
      if curPos == |input| {
        return Err(ReadsPastEnd);
      }
      var _ := CrustTryValue(literals, input, curPos);
      return Ok(None);
    }

    /** `next`: skip, then the literal and value lookups, neither of which
        yields a token. */
    method Next() returns (r: Result<Option<CrustToken>, CrustFault>)
      requires Valid()
      modifies this
      ensures Valid()
      ensures r.Ok? ==> r.value.None?
      ensures r == Err(SkipNeverEnds) <==> SkipTo(old(curPos)).None?
      ensures r == Err(ReadsPastEnd) <==> SkipTo(old(curPos)) == Some(|input|)
      ensures SkipTo(old(curPos)).Some? ==> curPos == SkipTo(old(curPos)).value
    {
      var loops := Skip();
      if loops {
        return Err(SkipNeverEnds);
      }
      r := NextLiteral();
    }
  }
}
