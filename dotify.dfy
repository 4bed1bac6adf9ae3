/** `dotify` of `lemon_py/ParseNode.hpp`: the DOT graph of a parse tree.
    Each node writes its node statement, then the edge from its parent,
    then its children in order. The statements are kept as structured
    values; the `snprintf` text around them is not modelled. */
module Dotify {
  import opened Wrappers
  import opened ParseTree
  import opened Sanitize

  /** A node statement (line, sanitized labels, id) or a `parent -> id` edge. */
  datatype DotStmt = NodeStmt(line: int, labels: seq<string>, id: int) | EdgeStmt(from: int, to: int)

  /** `std::bad_optional_access`, thrown for a node with no production
      whose token name or value is empty. */
  datatype DotError = BadOptionalAccess

  /** The labels of a node: its production, or else its token name and
      value, each sanitized. */
  function Label(n: ParseNode): Result<seq<string>, DotError> {
    if n.production.Some? then Ok([Sanitized(n.production.value)])
    else if n.tokName.Some? && n.value.Some? then Ok([Sanitized(n.tokName.value), Sanitized(n.value.value)])
    else Err(BadOptionalAccess)
  }

  /** The statements the member `dotify` writes for a tree. */
  function DotNode(n: ParseNode, parent: Option<int>): Result<seq<DotStmt>, DotError>
    decreases n
  {
    var labels :- Label(n);
    var rest :- DotList(n.children, n.id);
    Ok([NodeStmt(n.line, labels, n.id)] + (if parent.Some? then [EdgeStmt(parent.value, n.id)] else []) + rest)
  }

  function DotList(cs: seq<ParseNode>, parentId: int): Result<seq<DotStmt>, DotError>
    decreases cs
  {
    if |cs| == 0 then Ok([])
    else
      var first :- DotNode(cs[0], Some(parentId));
      var rest :- DotList(cs[1..], parentId);
      Ok(first + rest)
  }

  /** The ids of the node statements, in order. */
  function NodeIds(out: seq<DotStmt>): seq<int>
    decreases |out|
  {
    if |out| == 0 then [] else (if out[0].NodeStmt? then [out[0].id] else []) + NodeIds(out[1..])
  }

  /** The targets of the edges, in order. */
  function EdgeTargets(out: seq<DotStmt>): seq<int>
    decreases |out|
  {
    if |out| == 0 then [] else (if out[0].EdgeStmt? then [out[0].to] else []) + EdgeTargets(out[1..])
  }

  lemma {:induction false} StatementsConcat(a: seq<DotStmt>, b: seq<DotStmt>)
    ensures NodeIds(a + b) == NodeIds(a) + NodeIds(b)
    ensures EdgeTargets(a + b) == EdgeTargets(a) + EdgeTargets(b)
  {
    NodeIdsConcat(a, b);
    EdgeTargetsConcat(a, b);
  }

  lemma {:induction false} NodeIdsConcat(a: seq<DotStmt>, b: seq<DotStmt>)
    ensures NodeIds(a + b) == NodeIds(a) + NodeIds(b)
    decreases |a|
  {
    if |a| == 0 {
      assert a + b == b;
    } else {
      assert (a + b)[0] == a[0] && (a + b)[1..] == a[1..] + b;
      NodeIdsConcat(a[1..], b);
    }
  }

  lemma {:induction false} EdgeTargetsConcat(a: seq<DotStmt>, b: seq<DotStmt>)
    ensures EdgeTargets(a + b) == EdgeTargets(a) + EdgeTargets(b)
    decreases |a|
  {
    if |a| == 0 {
      assert a + b == b;
    } else {
      assert (a + b)[0] == a[0] && (a + b)[1..] == a[1..] + b;
      EdgeTargetsConcat(a[1..], b);
    }
  }

  /** Every node has a label, down the whole tree. */
  ghost predicate Labelled(n: ParseNode)
    decreases n
  {
    Label(n).Ok? && forall i | 0 <= i < |n.children| :: Labelled(n.children[i])
  }

  /** `dotify` succeeds exactly when every node has a label. */
  lemma {:induction false} DotOkIffLabelled(n: ParseNode, parent: Option<int>)
    ensures DotNode(n, parent).Ok? <==> Labelled(n)
    decreases n, 1
  {
    DotListOkIff(n.children, n.id);
  }

  lemma {:induction false} DotListOkIff(cs: seq<ParseNode>, parentId: int)
    ensures DotList(cs, parentId).Ok? <==> forall i | 0 <= i < |cs| :: Labelled(cs[i])
    decreases cs, 0
  {
    if |cs| > 0 {
      DotOkIffLabelled(cs[0], Some(parentId));
      DotListOkIff(cs[1..], parentId);
      assert forall i | 1 <= i < |cs| :: cs[i] == cs[1..][i - 1];
    }
  }

  /** The node statements come in pre-order, and every node but the root
      of the whole graph has one incoming edge, also in pre-order. */
  lemma {:induction false} DotShape(n: ParseNode, parent: Option<int>)
    requires DotNode(n, parent).Ok?
    ensures NodeIds(DotNode(n, parent).value) == Preorder(n)
    ensures EdgeTargets(DotNode(n, parent).value) == if parent.Some? then Preorder(n) else Preorder(n)[1..]
    decreases n, 1
  {
    var labels := Label(n).value;
    var rest := DotList(n.children, n.id).value;
    var head := [NodeStmt(n.line, labels, n.id)] + (if parent.Some? then [EdgeStmt(parent.value, n.id)] else []);
    DotListShape(n.children, n.id);
    StatementsConcat(head, rest);
    assert NodeIds(head) == [n.id] by {
      if parent.Some? {
        StatementsConcat([NodeStmt(n.line, labels, n.id)], [EdgeStmt(parent.value, n.id)]);
      }
    }
    assert EdgeTargets(head) == if parent.Some? then [n.id] else [] by {
      if parent.Some? {
        StatementsConcat([NodeStmt(n.line, labels, n.id)], [EdgeStmt(parent.value, n.id)]);
      }
    }
  }

  lemma {:induction false} DotListShape(cs: seq<ParseNode>, parentId: int)
    requires DotList(cs, parentId).Ok?
    ensures NodeIds(DotList(cs, parentId).value) == PreorderList(cs)
    ensures EdgeTargets(DotList(cs, parentId).value) == PreorderList(cs)
    decreases cs, 0
  {
    if |cs| > 0 {
      DotShape(cs[0], Some(parentId));
      DotListShape(cs[1..], parentId);
      StatementsConcat(DotNode(cs[0], Some(parentId)).value, DotList(cs[1..], parentId).value);
    }
  }

  /** One node statement per node and one edge per node below the root. */
  lemma DotCounts(n: ParseNode)
    requires DotNode(n, None).Ok?
    ensures |NodeIds(DotNode(n, None).value)| == Size(n)
    ensures |EdgeTargets(DotNode(n, None).value)| == Size(n) - 1
  {
    DotShape(n, None);
    PreorderSize(n);
  }

  /** The `stringstream` the member `dotify` appends to. */
  class DotWriter {
    var out: seq<DotStmt>

    constructor()
      ensures out == []
    {
      out := [];
    }

    /** The member `dotify(out, parent)`. When a label throws, what was
        written before is left and the error is returned. */
    method Dotify(n: ParseNode, parent: Option<int>) returns (r: Result<(), DotError>)
      modifies this
      ensures r.Ok? <==> DotNode(n, parent).Ok?
      ensures r.Err? ==> DotNode(n, parent) == Err(r.error)
      ensures r.Ok? ==> out == old(out) + DotNode(n, parent).value
      decreases n, 1
    {
      var labels := Label(n);
      if labels.Err? {
        return Err(labels.error);
      }
      out := out + [NodeStmt(n.line, labels.value, n.id)];
      if parent.Some? {
        out := out + [EdgeStmt(parent.value, n.id)];
      }
      ghost var head := [NodeStmt(n.line, labels.value, n.id)] + (if parent.Some? then [EdgeStmt(parent.value, n.id)] else []);
      assert out == old(out) + head;
      r := DotifyChildren(n.children, n.id);
    }

    /** The loop of the member `dotify` over the children, in order. */
    method DotifyChildren(cs: seq<ParseNode>, parentId: int) returns (r: Result<(), DotError>)
      modifies this
      ensures r.Ok? <==> DotList(cs, parentId).Ok?
      ensures r.Err? ==> DotList(cs, parentId) == Err(r.error)
      ensures r.Ok? ==> out == old(out) + DotList(cs, parentId).value
      decreases cs, 0
    {
      ghost var written: seq<DotStmt> := [];
      var i := 0;
      assert cs[0..] == cs && Joined([], DotList(cs, parentId)) == DotList(cs, parentId) by {
        JoinedEmpty(DotList(cs, parentId));
      }
      while i < |cs|
        invariant i <= |cs|
        invariant out == old(out) + written
        invariant DotList(cs, parentId) == Joined(written, DotList(cs[i..], parentId))
      {
        assert cs[i..][0] == cs[i] && cs[i..][1..] == cs[i + 1..];
        var child := Dotify(cs[i], Some(parentId));
        if child.Err? {
          return Err(child.error);
        }
        JoinedAssoc(written, DotNode(cs[i], Some(parentId)).value, DotList(cs[i + 1..], parentId));
        written := written + DotNode(cs[i], Some(parentId)).value;
        i := i + 1;
      }
      assert cs[i..] == [];
      assert written + [] == written;
      return Ok(());
    }
  }

  /** `a` in front of a successful result. */
  function Joined(a: seq<DotStmt>, r: Result<seq<DotStmt>, DotError>): Result<seq<DotStmt>, DotError> {
    match r
    case Ok(b) => Ok(a + b)
    case Err(e) => Err(e)
  }

  lemma JoinedEmpty(r: Result<seq<DotStmt>, DotError>)
    ensures Joined([], r) == r
  {
    if r.Ok? {
      assert [] + r.value == r.value;
    }
  }

  lemma JoinedAssoc(a: seq<DotStmt>, b: seq<DotStmt>, r: Result<seq<DotStmt>, DotError>)
    ensures Joined(a, Joined(b, r)) == Joined(a + b, r)
  {
    if r.Ok? {
      assert a + (b + r.value) == (a + b) + r.value;
    }
  }

  /** The free function `dotify(pn)`: the statements of the whole tree, the
      root having no parent. */
  method DotifyTree(pn: ParseNode) returns (r: Result<seq<DotStmt>, DotError>)
    ensures r == DotNode(pn, None)
  {
    var writer := new DotWriter();
    var done := writer.Dotify(pn, None);
    if done.Err? {
      return Err(done.error);
    }
    assert [] + DotNode(pn, None).value == DotNode(pn, None).value;
    return Ok(writer.out);
  }
}
