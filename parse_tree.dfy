/** The value-typed parse tree of `lemon_py/ParseNode.hpp` that the parser
    hands to Python: a node has a production name (inner nodes) or a token
    name and value (leaves), a line, its children by value, and an id unique
    in its tree. The Python attribute dictionary is not modelled. */
module ParseTree {
  import opened Wrappers

  datatype ParseNode = ParseNode(
    production: Option<string>,
    tokName: Option<string>,
    value: Option<string>,
    line: int,
    children: seq<ParseNode>,
    id: int)

  /** The number of nodes in a tree. */
  function Size(n: ParseNode): nat
    decreases n
  {
    1 + SizeList(n.children)
  }

  function SizeList(cs: seq<ParseNode>): nat
    decreases cs
  {
    if |cs| == 0 then 0 else Size(cs[0]) + SizeList(cs[1..])
  }

  /** The ids of a tree in pre-order: the node, then each child's tree in order. */
  function Preorder(n: ParseNode): seq<int>
    decreases n
  {
    [n.id] + PreorderList(n.children)
  }

  function PreorderList(cs: seq<ParseNode>): seq<int>
    decreases cs
  {
    if |cs| == 0 then [] else Preorder(cs[0]) + PreorderList(cs[1..])
  }

  /** Pre-order visits every node once. */
  lemma {:induction false} PreorderSize(n: ParseNode)
    ensures |Preorder(n)| == Size(n)
    decreases n, 1
  {
    PreorderListSize(n.children);
  }

  lemma {:induction false} PreorderListSize(cs: seq<ParseNode>)
    ensures |PreorderList(cs)| == SizeList(cs)
    decreases cs, 0
  {
    if |cs| > 0 {
      PreorderSize(cs[0]);
      PreorderListSize(cs[1..]);
    }
  }

  /** A child's tree is smaller than its parent's. */
  lemma {:induction false} ChildSmaller(cs: seq<ParseNode>, i: nat)
    requires i < |cs|
    ensures Size(cs[i]) <= SizeList(cs)
    decreases cs
  {
    if i > 0 {
      ChildSmaller(cs[1..], i - 1);
    }
  }

  // ---------------------------------------------------------------- child access

  /** What `operator[]` throws. */
  datatype NodeError = ChildIndexOutOfRange

  /** `childCount`. */
  function ChildCount(n: ParseNode): nat {
    |n.children|
  }

  /** `operator[]`: the child at `index`, or the `runtime_error` for an
      index past the children. */
  function Child(n: ParseNode, index: nat): (r: Result<ParseNode, NodeError>)
    ensures r.Err? <==> index >= ChildCount(n)
    ensures r.Ok? ==> r.value == n.children[index] && Size(r.value) < Size(n)
  {
    if index >= |n.children| then Err(ChildIndexOutOfRange)
    else
      ChildSmaller(n.children, index);
      Ok(n.children[index])
  }

  // ---------------------------------------------------------------- equality

  /** Syntactic equality as `operator==` defines it: the same number of
      children, token name, production and value, and pairwise equal
      children. Lines and ids take no part. */
  predicate Same(a: ParseNode, b: ParseNode)
    decreases a
  {
    |a.children| == |b.children| && a.tokName == b.tokName && a.production == b.production && a.value == b.value &&
    forall i | 0 <= i < |a.children| :: Same(a.children[i], b.children[i])
  }

  /** The tree with every line and id set to 0. */
  function Erase(n: ParseNode): ParseNode
    decreases n
  {
    ParseNode(n.production, n.tokName, n.value, 0, seq(|n.children|, i requires 0 <= i < |n.children| => Erase(n.children[i])), 0)
  }

  /** Two trees are equal exactly when they agree once lines and ids are
      erased. */
  lemma {:induction false} SameIffErased(a: ParseNode, b: ParseNode)
    ensures Same(a, b) <==> Erase(a) == Erase(b)
    decreases a
  {
    forall i | 0 <= i < |a.children| && i < |b.children| {
      SameIffErased(a.children[i], b.children[i]);
    }
    if Erase(a) == Erase(b) {
      assert |a.children| == |Erase(a).children| == |Erase(b).children| == |b.children|;
      forall i | 0 <= i < |a.children|
        ensures Same(a.children[i], b.children[i])
      {
        assert Erase(a).children[i] == Erase(b).children[i];
      }
    }
    if Same(a, b) {
      assert Erase(a).children == Erase(b).children;
    }
  }

  lemma SameReflexive(a: ParseNode)
    ensures Same(a, a)
  {
    SameIffErased(a, a);
  }

  lemma SameSymmetric(a: ParseNode, b: ParseNode)
    ensures Same(a, b) <==> Same(b, a)
  {
    SameIffErased(a, b);
    SameIffErased(b, a);
  }

  lemma SameTransitive(a: ParseNode, b: ParseNode, c: ParseNode)
    requires Same(a, b) && Same(b, c)
    ensures Same(a, c)
  {
    SameIffErased(a, b);
    SameIffErased(b, c);
    SameIffErased(a, c);
  }

  /** `operator==`. `sameObject` is the address test `&o == this`, which
      can only hold when both sides are one node. */
  method Equals(a: ParseNode, b: ParseNode, sameObject: bool) returns (eq: bool)
    requires sameObject ==> a == b
    ensures eq == Same(a, b)
    decreases a, 1
  {
    if sameObject {
      SameReflexive(a);
      return true;
    }
    if |a.children| != |b.children| || a.tokName != b.tokName || a.production != b.production || a.value != b.value {
      return false;
    }
    var i := 0;
    while i < |a.children| && i < |b.children|
      invariant i <= |a.children|
      invariant forall k | 0 <= k < i :: Same(a.children[k], b.children[k])
    {
      var differ := NotEquals(a.children[i], b.children[i], false);
      if differ {
        return false;
      }
      i := i + 1;
    }
    return true;
  }

  /** `operator!=`: the negation of `operator==`. */
  method NotEquals(a: ParseNode, b: ParseNode, sameObject: bool) returns (ne: bool)
    requires sameObject ==> a == b
    ensures ne == !Same(a, b)
    decreases a, 2
  {
    var eq := Equals(a, b, sameObject);
    ne := !eq;
  }

  // ---------------------------------------------------------------- construction and moves

  /** One `ParseNode` object, for the constructors and moves that change
      the node they move from. */
  class Node {
    var production: Option<string>
    var tokName: Option<string>
    var value: Option<string>
    var line: int
    var children: seq<ParseNode>
    var id: int

    /** The node's current value. */
    function Value(): ParseNode
      reads this
    {
      ParseNode(production, tokName, value, line, children, id)
    }

    /** The default constructor: no names, no children, line and id -1. */
    constructor()
      ensures Value() == ParseNode(None, None, None, -1, [], -1)
    {
      production := None;
      tokName := None;
      value := None;
      line := -1;
      children := [];
      id := -1;
    }

    /** The move constructor: takes every field of `o` and marks `o` with
        id -1. What else is left in `o` is unspecified. */
    constructor Move(o: Node)
      modifies o
      ensures Value() == old(o.Value())
      ensures o.id == -1
    {
      production := o.production;
      tokName := o.tokName;
      value := o.value;
      line := o.line;
      children := o.children;
      id := o.id;
      new;
      o.id := -1;
    }

    /** Move assignment: takes every field of `o` and marks `o` with id -1;
        moving a node onto itself leaves it with id -1. */
    method MoveAssign(o: Node)
      modifies this, o
      ensures o != this ==> Value() == old(o.Value()) && o.id == -1
      ensures o == this ==> id == -1 && line == old(line)
    {
      production := o.production;
      tokName := o.tokName;
      value := o.value;
      line := o.line;
      children := o.children;
      id := o.id;
      o.id := -1;
    }
  }
}
