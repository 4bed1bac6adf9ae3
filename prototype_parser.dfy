/** The prototype parsers of `crust/Parser.cpp` and `lemon-py/ParserImpl.cpp`.
    Both keep every node in a vector that owns it and share one `make_node`
    body; `lemon-py` adds a `parse_string` that returns an empty node. Their
    `StringTable` is the one of module `StringTable`. */
module PrototypeParser {
  import opened Wrappers
  import opened StringTable

  /** The prototype `Token`: a type and an index into its string table. */
  datatype ProtoToken = ProtoToken(kind: int, valueIndex: nat)

  /** `Token::value` of `lemon-py`: the string interned at the token's
      index, which the C++ code reads without a check. */
  function TokenValue(table: StringTable, t: ProtoToken): (r: string)
    reads table
    requires t.valueIndex < |table.strings|
    ensures table.Valid() ==> r in table.previousLocations && table.previousLocations[r] == t.valueIndex
  {
    table.GetString(t.valueIndex)
  }

  datatype ProtoValue = ProtoProduction(name: string) | ProtoTokenValue(token: ProtoToken)

  /** An internal node: its value, its line and the positions of its children. */
  datatype ProtoNode = ProtoNode(value: ProtoValue, line: int, children: seq<nat>)

  class Parser {
    var allNodes: seq<ProtoNode>

    /** Every child is a node made earlier. */
    ghost predicate Closed()
      reads this
    {
      forall a, i :: 0 <= a < |allNodes| && 0 <= i < |allNodes[a].children| ==> allNodes[a].children[i] < a
    }

    constructor()
      ensures allNodes == [] && Closed()
    {
      allNodes := [];
    }

    /** `make_node`: appends a node holding the value, the `line` argument
        (whatever the value) and the children in order, and returns it. */
    method MakeNode(value: ProtoValue, children: seq<nat>, line: int) returns (node: nat)
      modifies this
      ensures allNodes == old(allNodes) + [ProtoNode(value, line, children)]
      ensures node == |allNodes| - 1 && allNodes[node] == ProtoNode(value, line, children)
      ensures old(Closed()) && (forall i :: 0 <= i < |children| ==> children[i] < node) ==> Closed()
    {
      allNodes := allNodes + [ProtoNode(value, line, children)];
      node := |allNodes| - 1;
    }
  }

  /** The Python-facing node of `lemon-py`: a production, a value, a line
      and the children. */
  datatype LegacyNode = LegacyNode(production: Option<string>, value: Option<string>, line: int, children: seq<LegacyNode>)

  /** `parse_string` of `lemon-py`: a value-initialised node, whatever the input. */
  function ParseString(sourceCode: string): (r: LegacyNode)
    ensures r.production.None? && r.value.None? && r.children == [] && r.line == 0
  {
    LegacyNode(None, None, 0, [])
  }
}
