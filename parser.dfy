/** The parser state of `lemon_py/ParserImpl.cpp` that grammar actions
    use, and `uplift_node`, which copies the internal pointer-based tree
    into the value-typed `ParseNode` tree. A node's address is a number
    the parser hands out; `allNodes`, the map that owns every node, is a
    map from addresses to nodes. */
module Parser {
  import opened Wrappers
  import opened Lexer
  import opened ParseTree

  /** `ParseValue`: a production name or a token. */
  datatype ParseValue = Production(name: string) | TokenValue(token: Token)

  /** The internal `ParseNode`: a value, a line, and the addresses of the children. */
  datatype InternalNode = InternalNode(value: ParseValue, line: int, children: seq<nat>)

  /** `rank` orders the nodes so that every child ranks below its parent:
      every child address names a node, and following children always ends. */
  ghost predicate Ranked(nodes: map<nat, InternalNode>, rank: map<nat, nat>) {
    nodes.Keys <= rank.Keys &&
    forall a, i :: a in nodes && 0 <= i < |nodes[a].children| ==>
      nodes[a].children[i] in nodes && rank[nodes[a].children[i]] < rank[a]
  }

  /** The nodes form no cycle: some rank orders them. */
  ghost predicate Acyclic(nodes: map<nat, InternalNode>) {
    exists rank :: Ranked(nodes, rank)
  }

  /** One rank that orders acyclic nodes. */
  ghost function RankOf(nodes: map<nat, InternalNode>): (rank: map<nat, nat>)
    requires Acyclic(nodes)
    ensures Ranked(nodes, rank)
  {
    var rank :| Ranked(nodes, rank); rank
  }

  /** The node at `b` is `a` or lies below it. */
  ghost predicate Reaches(nodes: map<nat, InternalNode>, rank: map<nat, nat>, a: nat, b: nat)
    requires Ranked(nodes, rank) && a in nodes
    decreases rank[a]
  {
    a == b || exists i :: 0 <= i < |nodes[a].children| && Reaches(nodes, rank, nodes[a].children[i], b)
  }

  /** The nodes after `push_back` of `child` onto `parent`. */
  function Appended(nodes: map<nat, InternalNode>, parent: nat, child: nat): map<nat, InternalNode>
    requires parent in nodes
  {
    nodes[parent := nodes[parent].(children := nodes[parent].children + [child])]
  }

  /** A rank for the nodes after `push_back`: every node above `parent`,
      and `parent` itself, is raised above `child`. */
  ghost function Raised(nodes: map<nat, InternalNode>, rank: map<nat, nat>, parent: nat, child: nat): map<nat, nat>
    requires Ranked(nodes, rank) && child in nodes
  {
    map a | a in rank :: if a in nodes && Reaches(nodes, rank, a, parent) then rank[a] + rank[child] + 1 else rank[a]
  }

  /** `push_back` keeps the nodes acyclic when the parent does not lie
      below the child: the raised rank orders the new nodes. */
  lemma {:induction false} PushBackRanked(nodes: map<nat, InternalNode>, rank: map<nat, nat>, parent: nat, child: nat)
    requires Ranked(nodes, rank) && parent in nodes && child in nodes && !Reaches(nodes, rank, child, parent)
    ensures Ranked(Appended(nodes, parent, child), Raised(nodes, rank, parent, child))
  {
    var after := Appended(nodes, parent, child);
    var raised := Raised(nodes, rank, parent, child);
    forall a, i | a in after && 0 <= i < |after[a].children|
      ensures after[a].children[i] in after && raised[after[a].children[i]] < raised[a]
    {
      var c := after[a].children[i];
      if a == parent && i == |nodes[parent].children| {
        assert c == child;
        assert Reaches(nodes, rank, parent, parent);
      } else {
        assert c == nodes[a].children[i];
        if Reaches(nodes, rank, c, parent) {
          assert Reaches(nodes, rank, a, parent);
        }
      }
    }
  }

  /** Following old children from `a` to `b` stays possible after
      `push_back`, so any rank of the new nodes puts `b` no higher than `a`. */
  lemma {:induction false} ReachesRankBelow(nodes: map<nat, InternalNode>, rank: map<nat, nat>, parent: nat, child: nat, other: map<nat, nat>, a: nat, b: nat)
    requires Ranked(nodes, rank) && parent in nodes && a in nodes
    requires Ranked(Appended(nodes, parent, child), other) && Reaches(nodes, rank, a, b)
    ensures b in other && other[b] <= other[a]
    decreases rank[a]
  {
    if a != b {
      var i :| 0 <= i < |nodes[a].children| && Reaches(nodes, rank, nodes[a].children[i], b);
      var c := nodes[a].children[i];
      assert Appended(nodes, parent, child)[a].children[i] == c;
      ReachesRankBelow(nodes, rank, parent, child, other, c, b);
    }
  }

  /** `push_back` of a node onto one below it makes a cycle: no rank
      orders the new nodes, and `uplift_node` would never end. */
  lemma {:induction false} PushBackCycle(nodes: map<nat, InternalNode>, rank: map<nat, nat>, parent: nat, child: nat)
    requires Ranked(nodes, rank) && parent in nodes && child in nodes && Reaches(nodes, rank, child, parent)
    ensures !Acyclic(Appended(nodes, parent, child))
  {
    if Acyclic(Appended(nodes, parent, child)) {
      var other :| Ranked(Appended(nodes, parent, child), other);
      var after := Appended(nodes, parent, child);
      assert after[parent].children[|nodes[parent].children|] == child;
      ReachesRankBelow(nodes, rank, parent, child, other, child, parent);
    }
  }

  /** No node has `addr` among its children. */
  ghost predicate Unreferenced(nodes: map<nat, InternalNode>, addr: nat) {
    forall a, i :: a in nodes && 0 <= i < |nodes[a].children| ==> nodes[a].children[i] != addr
  }

  class Parser {
    var allNodes: map<nat, InternalNode>
    var nextAddress: nat

    /** Every address handed out so far lies below `nextAddress`. */
    ghost predicate Valid()
      reads this
    {
      forall a :: a in allNodes ==> a < nextAddress
    }

    constructor()
      ensures Valid() && allNodes == map[] && Acyclic(allNodes)
    {
      allNodes := map[];
      nextAddress := 0;
      assert Ranked(map[], map[]);
    }

    /** `make_node`: a new node owning the value and the children in the
        order given; a token's node takes the token's line, any other the
        `line` argument. */
    method MakeNode(value: ParseValue, children: seq<nat>, line: int) returns (node: nat)
      requires Valid()
      modifies this
      ensures Valid()
      ensures node !in old(allNodes)
      ensures allNodes == old(allNodes)[node := InternalNode(value, if value.TokenValue? then value.token.line else line, children)]
      ensures forall rank :: old(Ranked(allNodes, rank)) && (forall i :: 0 <= i < |children| ==> children[i] in old(allNodes)) ==>
        Ranked(allNodes, rank[node := Above(rank, children)])
    {
      var nodeLine := if value.TokenValue? then value.token.line else line;
      node := nextAddress;
      allNodes := allNodes[node := InternalNode(value, nodeLine, children)];
      nextAddress := nextAddress + 1;
    }

    /** `drop_node`: frees the node if the map owns it. */
    method DropNode(node: nat)
      requires Valid()
      modifies this
      ensures Valid()
      ensures allNodes == old(allNodes) - {node} && nextAddress == old(nextAddress)
      ensures forall rank :: old(Ranked(allNodes, rank)) && old(Unreferenced(allNodes, node)) ==> Ranked(allNodes, rank)
    {
      if node in allNodes {
        allNodes := map a | a in allNodes && a != node :: allNodes[a];
      }
      assert allNodes == old(allNodes) - {node};
    }

    /** `push_back` and its alias `pb`: appends `child` to the children of
        `parent`, whatever their addresses, and returns `parent`. The new
        nodes stay acyclic when `parent` does not lie below `child`. */
    method PushBack(parent: nat, child: nat) returns (r: nat)
      requires Valid() && parent in allNodes
      modifies this
      ensures Valid() && r == parent && nextAddress == old(nextAddress)
      ensures allNodes == Appended(old(allNodes), parent, child)
      ensures forall rank :: old(Ranked(allNodes, rank)) && child in old(allNodes) && !Reaches(old(allNodes), rank, child, parent) ==>
        Ranked(allNodes, Raised(old(allNodes), rank, parent, child))
    {
      ghost var before := allNodes;
      allNodes := allNodes[parent := allNodes[parent].(children := allNodes[parent].children + [child])];
      forall rank | Ranked(before, rank) && child in before && !Reaches(before, rank, child, parent)
        ensures Ranked(allNodes, Raised(before, rank, parent, child))
      {
        PushBackRanked(before, rank, parent, child);
      }
      r := parent;
    }

    /** `l`: sets the line of `node` and returns it. */
    method SetLine(node: nat, line: int) returns (r: nat)
      requires Valid() && node in allNodes
      modifies this
      ensures Valid() && r == node && nextAddress == old(nextAddress)
      ensures allNodes == old(allNodes)[node := old(allNodes)[node].(line := line)]
      ensures forall rank :: old(Ranked(allNodes, rank)) ==> Ranked(allNodes, rank)
    {
      allNodes := allNodes[node := allNodes[node].(line := line)];
      r := node;
    }
  }

  /** A rank above every child's rank. */
  ghost function Above(rank: map<nat, nat>, children: seq<nat>): (r: nat)
    requires forall i :: 0 <= i < |children| ==> children[i] in rank
    ensures forall i :: 0 <= i < |children| ==> rank[children[i]] < r
  {
    if children == [] then 0
    else
      var rest := Above(rank, children[1..]);
      assert forall i :: 1 <= i < |children| ==> rank[children[i]] < rest by {
        forall i | 1 <= i < |children| ensures rank[children[i]] < rest {
          assert children[i] == children[1..][i - 1];
        }
      }
      if rank[children[0]] < rest then rest else rank[children[0]] + 1
  }

  /** The list idiom `L = L1->pb(E)` attaches a newer node to an older
      one; the result can still be copied. */
  lemma ListIdiomAcyclic()
    ensures Acyclic(map[0 := InternalNode(Production("list"), -1, [1]), 1 := InternalNode(Production("item"), -1, [])])
  {
    var nodes := map[0 := InternalNode(Production("list"), -1, [1]), 1 := InternalNode(Production("item"), -1, [])];
    assert Ranked(nodes, map[0 := 1, 1 := 0]);
  }

  // ---------------------------------------------------------------- uplift_node

  /** What `uplift_node` reads besides the nodes: the interned strings and
      `token_name_map`. */
  datatype Names = Names(strings: seq<string>, tokenNames: map<int, string>)

  /** Every node can be copied: the nodes are acyclic, and every token's
      value index names an interned string. */
  ghost predicate Upliftable(nodes: map<nat, InternalNode>, names: Names) {
    Acyclic(nodes) &&
    forall a :: a in nodes && nodes[a].value.TokenValue? && nodes[a].value.token.valueIndex.Some? ==>
      nodes[a].value.token.valueIndex.value < |names.strings|
  }

  /** `Token::name`: the entry of `token_name_map`, or the empty string
      that indexing the map inserts for a missing type. */
  function TokenName(names: Names, t: Token): string {
    if t.kind in names.tokenNames then names.tokenNames[t.kind] else ""
  }

  /** `Token::value`: the interned string, or `LITERAL` for a token without
      a value table. */
  function TokenText(names: Names, t: Token): string
    requires t.valueIndex.Some? ==> t.valueIndex.value < |names.strings|
  {
    if t.valueIndex.Some? then names.strings[t.valueIndex.value] else "LITERAL"
  }

  /** The copy `uplift_node` makes of the node at `addr`, numbering from
      `counter`, with the counter after it. */
  function Uplift(nodes: map<nat, InternalNode>, names: Names, addr: nat, counter: int): (ParseNode, int)
    requires Upliftable(nodes, names) && addr in nodes
    decreases RankOf(nodes)[addr], 1
  {
    var alien := nodes[addr];
    var (kids, after) := UpliftChildren(nodes, names, addr, 0, counter + 1);
    match alien.value
    case TokenValue(t) => (ParseNode(None, Some(TokenName(names, t)), Some(TokenText(names, t)), alien.line, kids, counter), after)
    case Production(p) => (ParseNode(Some(p), None, None, alien.line, kids, counter), after)
  }

  /** The children of the node at `addr` from index `i`, copied in order. */
  function UpliftChildren(nodes: map<nat, InternalNode>, names: Names, addr: nat, i: nat, counter: int): (seq<ParseNode>, int)
    requires Upliftable(nodes, names) && addr in nodes
    decreases RankOf(nodes)[addr], 0, |nodes[addr].children| - i
  {
    var kids := nodes[addr].children;
    if i >= |kids| then ([], counter)
    else
      var (first, mid) := Uplift(nodes, names, kids[i], counter);
      var (rest, after) := UpliftChildren(nodes, names, addr, i + 1, mid);
      ([first] + rest, after)
  }

  /** The numbers from `start` below `end`, in order. */
  function Range(start: int, end: int): seq<int>
    decreases end - start
  {
    if end <= start then [] else [start] + Range(start + 1, end)
  }

  lemma {:induction false} RangeConcat(a: int, b: int, c: int)
    requires a <= b <= c
    ensures Range(a, b) + Range(b, c) == Range(a, c)
    decreases b - a
  {
    if a < b {
      RangeConcat(a + 1, b, c);
    }
  }

  /** The copy keeps the shape: the line, the label kind, the number and
      order of the children; and it numbers its nodes `counter`, `counter
      + 1`, … in pre-order, ending where the counter ends. */
  lemma {:induction false} UpliftNumbers(nodes: map<nat, InternalNode>, names: Names, addr: nat, counter: int)
    requires Upliftable(nodes, names) && addr in nodes
    ensures var (n, after) := Uplift(nodes, names, addr, counter);
      Preorder(n) == Range(counter, after) && after == counter + Size(n) &&
      n.line == nodes[addr].line && |n.children| == |nodes[addr].children| && n.id == counter &&
      (nodes[addr].value.TokenValue? <==> n.production.None?) &&
      (n.tokName.Some? <==> n.production.None?) && (n.value.Some? <==> n.production.None?)
    decreases RankOf(nodes)[addr], 1
  {
    UpliftChildrenNumbers(nodes, names, addr, 0, counter + 1);
    var (kids, after) := UpliftChildren(nodes, names, addr, 0, counter + 1);
    assert nodes[addr].children[0..] == nodes[addr].children;
    RangeConcat(counter, counter + 1, after);
  }

  lemma {:induction false} UpliftChildrenNumbers(nodes: map<nat, InternalNode>, names: Names, addr: nat, i: nat, counter: int)
    requires Upliftable(nodes, names) && addr in nodes && i <= |nodes[addr].children|
    ensures var (kids, after) := UpliftChildren(nodes, names, addr, i, counter);
      PreorderList(kids) == Range(counter, after) && after == counter + SizeList(kids) &&
      |kids| == |nodes[addr].children[i..]|
    decreases RankOf(nodes)[addr], 0, |nodes[addr].children| - i
  {
    var cs := nodes[addr].children;
    if i < |cs| {
      UpliftNumbers(nodes, names, cs[i], counter);
      var (first, mid) := Uplift(nodes, names, cs[i], counter);
      UpliftChildrenNumbers(nodes, names, addr, i + 1, mid);
      var (rest, after) := UpliftChildren(nodes, names, addr, i + 1, mid);
      var kids := [first] + rest;
      assert kids[0] == first && kids[1..] == rest;
      RangeConcat(counter, mid, after);
    }
  }

  /** The `i`-th child of the copy is the copy of the `i`-th child, so the
      order of the children is kept. */
  lemma {:induction false} UpliftChildOrder(nodes: map<nat, InternalNode>, names: Names, addr: nat, i: nat, counter: int, k: nat)
    requires Upliftable(nodes, names) && addr in nodes && i <= k < |nodes[addr].children|
    ensures k - i < |UpliftChildren(nodes, names, addr, i, counter).0|
    ensures exists c :: UpliftChildren(nodes, names, addr, i, counter).0[k - i] == Uplift(nodes, names, nodes[addr].children[k], c).0
    decreases |nodes[addr].children| - i
  {
    var cs := nodes[addr].children;
    var (first, mid) := Uplift(nodes, names, cs[i], counter);
    UpliftChildrenNumbers(nodes, names, addr, i + 1, mid);
    if k > i {
      UpliftChildOrder(nodes, names, addr, i + 1, mid, k);
    } else {
      assert UpliftChildren(nodes, names, addr, i, counter).0[0] == Uplift(nodes, names, cs[i], counter).0;
    }
  }

  /** `uplift_node`, recursive with a loop over the children, threading
      the id counter. */
  method UpliftNode(nodes: map<nat, InternalNode>, names: Names, addr: nat, idCounter: int) returns (retval: ParseNode, counter: int)
    requires Upliftable(nodes, names) && addr in nodes
    ensures (retval, counter) == Uplift(nodes, names, addr, idCounter)
    decreases RankOf(nodes)[addr]
  {
    var alien := nodes[addr];
    var id := idCounter;
    counter := idCounter + 1;
    var children: seq<ParseNode> := [];
    var i := 0;
    assert children + UpliftChildren(nodes, names, addr, 0, counter).0 == UpliftChildren(nodes, names, addr, 0, counter).0;
    while i < |alien.children|
      invariant i <= |alien.children|
      invariant UpliftChildren(nodes, names, addr, 0, idCounter + 1) ==
        (children + UpliftChildren(nodes, names, addr, i, counter).0, UpliftChildren(nodes, names, addr, i, counter).1)
    {
      var child;
      child, counter := UpliftNode(nodes, names, alien.children[i], counter);
      children := children + [child];
      assert children + UpliftChildren(nodes, names, addr, i + 1, counter).0 ==
        (children[..|children| - 1]) + ([child] + UpliftChildren(nodes, names, addr, i + 1, counter).0);
      i := i + 1;
    }
    assert children + [] == children;
    match alien.value
    case TokenValue(t) =>
      retval := ParseNode(None, Some(TokenName(names, t)), Some(TokenText(names, t)), alien.line, children, id);
    case Production(p) =>
      retval := ParseNode(Some(p), None, None, alien.line, children, id);
  }

  /** `uplift_node(alien)`: numbering starts at 0, so the ids of the copy
      are 0, 1, …, one less than its size, in pre-order. */
  method UpliftRoot(nodes: map<nat, InternalNode>, names: Names, addr: nat) returns (retval: ParseNode)
    requires Upliftable(nodes, names) && addr in nodes
    ensures Preorder(retval) == Range(0, Size(retval))
    ensures retval == Uplift(nodes, names, addr, 0).0
  {
    var counter;
    retval, counter := UpliftNode(nodes, names, addr, 0);
    UpliftNumbers(nodes, names, addr, 0);
  }

  // ---------------------------------------------------------------- the end of parse_string

  /** The `runtime_error` of a lexer failure: the line, and up to 100
      characters of the rest of the input. */
  datatype ParseError = LexerFailure(line: int, around: string)

  /** What `parse_string` does once the lexer stops: input left over is a
      lexer failure; with a root the tree is copied; without one the result
      is a default node. */
  function FinishParse(consumedInput: bool, line: int, remainder: string, nodes: map<nat, InternalNode>, names: Names, root: Option<nat>): (r: Result<ParseNode, ParseError>)
    requires root.Some? ==> Upliftable(nodes, names) && root.value in nodes
    ensures r.Err? <==> !consumedInput
    ensures r.Err? ==> r.error == LexerFailure(line, remainder)
    ensures r.Ok? && root.None? ==> r.value == ParseNode(None, None, None, -1, [], -1)
    ensures r.Ok? && root.Some? ==> Preorder(r.value) == Range(0, Size(r.value)) && r.value.line == nodes[root.value].line
    ensures r.Ok? && root.Some? ==> r.value == Uplift(nodes, names, root.value, 0).0
  {
    if !consumedInput then Err(LexerFailure(line, remainder))
    else if root.Some? then
      UpliftNumbers(nodes, names, root.value, 0);
      Ok(Uplift(nodes, names, root.value, 0).0)
    else Ok(ParseNode(None, None, None, -1, [], -1))
  }
}
