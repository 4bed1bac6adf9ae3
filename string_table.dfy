/** `StringTable`, the interner the lexer stores token values in. The same
    class appears three times in the repository (`lemon_py/ParserImpl.cpp`,
    `crust/Parser.cpp` and `lemon-py/ParserImpl.cpp`) with the same code,
    so it is modelled once. `strings` is the vector and `previousLocations`
    the hash map from a string to its index. */
module StringTable {

  class StringTable {
    var strings: seq<string>
    var previousLocations: map<string, nat>

    /** The map indexes the vector exactly: every interned string is
        recorded at the one index that holds it. */
    ghost predicate Valid()
      reads this
    {
      (forall s :: s in previousLocations ==> previousLocations[s] < |strings| && strings[previousLocations[s]] == s) &&
      (forall i :: 0 <= i < |strings| ==> strings[i] in previousLocations && previousLocations[strings[i]] == i)
    }

    constructor()
      ensures Valid() && strings == [] && previousLocations == map[]
    {
      strings := [];
      previousLocations := map[];
    }

    /** `pushString`: the index of `s`, interning it first if it is new. */
    method PushString(s: string) returns (idx: nat)
      requires Valid()
      modifies this
      ensures Valid()
      ensures idx < |strings| && GetString(idx) == s
      ensures s in old(previousLocations) ==> idx == old(previousLocations[s]) && strings == old(strings) && previousLocations == old(previousLocations)
      ensures s !in old(previousLocations) ==> idx == old(|strings|) && strings == old(strings) + [s] && previousLocations == old(previousLocations)[s := idx]
    {
      if s in previousLocations {
        return previousLocations[s];
      }
      idx := |strings|;
      previousLocations := previousLocations[s := idx];
      strings := strings + [s];
    }

    /** `getString`: indexing the vector, which the C++ code does not check. */
    function GetString(index: nat): string
      reads this
      requires index < |strings|
    {
      strings[index]
    }

    /** Interned strings are distinct, so an index names one string. */
    lemma IndexesDistinct(i: nat, j: nat)
      requires Valid() && i < |strings| && j < |strings| && GetString(i) == GetString(j)
      ensures i == j
    {
      assert previousLocations[strings[i]] == i && previousLocations[strings[j]] == j;
    }
  }
}
