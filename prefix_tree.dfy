/** `PTNode`, the prefix tree of literal tokens, from `lemon_py/ParserImpl.cpp`
    and its prototype in `crust/PrefixTree.hpp`. A node holds its `code`
    character, an optional value, and its children by value in a vector, so
    the tree is a datatype and `add_value` returns the updated tree. */
module PrefixTree {
  import opened Wrappers

  datatype PTNode = PTNode(code: char, value: Option<int>, children: seq<PTNode>)

  /** The index of the first child whose code is `c`: the `for` loop of `add_value`. */
  function FindChild(children: seq<PTNode>, c: char): (r: Option<nat>)
    ensures r.Some? ==> r.value < |children| && children[r.value].code == c
    ensures r.Some? ==> forall k :: 0 <= k < r.value ==> children[k].code != c
    ensures r.None? ==> forall k :: 0 <= k < |children| ==> children[k].code != c
  {
    if |children| == 0 then None
    else if children[0].code == c then Some(0)
    else match FindChild(children[1..], c)
      case None => None
      case Some(i) => Some(i + 1)
  }

  /** `add_value`: an empty key sets this node's value; otherwise the key's
      first character selects the first child with that code, or a new child
      appended at the end, and the rest of the key goes into it. */
  function AddValue(n: PTNode, key: string, v: int): (r: PTNode)
    decreases |key|
  {
    if |key| == 0 then n.(value := Some(v))
    else match FindChild(n.children, key[0])
      case Some(i) => n.(children := n.children[i := AddValue(n.children[i], key[1..], v)])
      case None => n.(children := n.children + [AddValue(PTNode(key[0], None, []), key[1..], v)])
  }

  /** The value stored under `key`: follow the first child matching each
      character. The reference the lookups are proved against. */
  function Get(n: PTNode, key: string): Option<int>
    decreases |key|
  {
    if |key| == 0 then n.value
    else match FindChild(n.children, key[0])
      case None => None
      case Some(i) => Get(n.children[i], key[1..])
  }

  /** No node has two children with the same code. */
  predicate Distinct(n: PTNode)
    decreases n
  {
    (forall i, j :: 0 <= i < j < |n.children| ==> n.children[i].code != n.children[j].code) &&
    (forall i :: 0 <= i < |n.children| ==> Distinct(n.children[i]))
  }

  /** `add_value` keeps child codes distinct, and keeps a node's own code. */
  lemma {:induction false} AddValueDistinct(n: PTNode, key: string, v: int)
    requires Distinct(n)
    ensures Distinct(AddValue(n, key, v)) && AddValue(n, key, v).code == n.code
    decreases |key|
  {
    if |key| > 0 {
      match FindChild(n.children, key[0])
      case Some(i) =>
        AddValueDistinct(n.children[i], key[1..], v);
        var cs := n.children[i := AddValue(n.children[i], key[1..], v)];
        assert forall k :: 0 <= k < |cs| ==> cs[k].code == n.children[k].code;
        assert forall k :: 0 <= k < |cs| && k != i ==> cs[k] == n.children[k];
      case None =>
        var leaf := PTNode(key[0], None, []);
        AddValueDistinct(leaf, key[1..], v);
        var cs := n.children + [AddValue(leaf, key[1..], v)];
        assert forall k :: 0 <= k < |n.children| ==> cs[k] == n.children[k];
    }
  }

  /** A run of `add_literal` calls in order, from a tree. */
  function AddAll(n: PTNode, entries: seq<(string, int)>): PTNode
    decreases |entries|
  {
    if |entries| == 0 then n
    else AddAll(AddValue(n, entries[0].0, entries[0].1), entries[1..])
  }

  /** The root `PTNode(0, nullopt)` has distinct child codes after any run
      of `add_value` calls. */
  lemma {:induction false} AddAllDistinct(n: PTNode, entries: seq<(string, int)>)
    requires Distinct(n)
    ensures Distinct(AddAll(n, entries))
    decreases |entries|
  {
    if |entries| > 0 {
      AddValueDistinct(n, entries[0].0, entries[0].1);
      AddAllDistinct(AddValue(n, entries[0].0, entries[0].1), entries[1..]);
    }
  }

  /** After `add_value(key, v)` the key holds `v`. */
  lemma {:induction false} AddValueGet(n: PTNode, key: string, v: int)
    ensures Get(AddValue(n, key, v), key) == Some(v)
    decreases |key|
  {
    if |key| > 0 {
      var r := AddValue(n, key, v);
      match FindChild(n.children, key[0])
      case Some(i) =>
        AddValueGet(n.children[i], key[1..], v);
        AddValueCode(n.children[i], key[1..], v);
        assert forall k :: 0 <= k < |r.children| ==> r.children[k].code == n.children[k].code;
        FindChildSameCodes(n.children, r.children, key[0]);
      case None =>
        var leaf := PTNode(key[0], None, []);
        AddValueGet(leaf, key[1..], v);
        AddValueCode(leaf, key[1..], v);
        FindChildAppended(n.children, AddValue(leaf, key[1..], v), key[0]);
    }
  }

  /** ... and every other key keeps what it held. */
  lemma {:induction false} AddValueOthers(n: PTNode, key: string, v: int, other: string)
    requires other != key
    ensures Get(AddValue(n, key, v), other) == Get(n, other)
    decreases |key|
  {
    var r := AddValue(n, key, v);
    if |key| > 0 && |other| > 0 {
      match FindChild(n.children, key[0])
      case Some(i) =>
        AddValueCode(n.children[i], key[1..], v);
        assert forall k :: 0 <= k < |r.children| ==> r.children[k].code == n.children[k].code;
        FindChildSameCodes(n.children, r.children, other[0]);
        if other[0] == key[0] {
          TailsDiffer(other, key);
          AddValueOthers(n.children[i], key[1..], v, other[1..]);
        }
      case None =>
        var leaf := PTNode(key[0], None, []);
        AddValueCode(leaf, key[1..], v);
        FindChildAppended(n.children, AddValue(leaf, key[1..], v), other[0]);
        if other[0] == key[0] {
          TailsDiffer(other, key);
          AddValueOthers(leaf, key[1..], v, other[1..]);
        }
    }
  }

  lemma TailsDiffer(a: string, b: string)
    requires 0 < |a| && 0 < |b| && a != b && a[0] == b[0]
    ensures a[1..] != b[1..]
  {
    assert a == [a[0]] + a[1..] && b == [b[0]] + b[1..];
  }

  /** `add_value` keeps a node's own code. */
  lemma AddValueCode(n: PTNode, key: string, v: int)
    ensures AddValue(n, key, v).code == n.code
  {
  }

  lemma {:induction false} FindChildSameCodes(a: seq<PTNode>, b: seq<PTNode>, c: char)
    requires |a| == |b| && forall k :: 0 <= k < |a| ==> a[k].code == b[k].code
    ensures FindChild(a, c) == FindChild(b, c)
  {
    if |a| > 0 {
      FindChildSameCodes(a[1..], b[1..], c);
    }
  }

  lemma {:induction false} FindChildAppended(a: seq<PTNode>, x: PTNode, c: char)
    ensures FindChild(a + [x], c) == if FindChild(a, c).Some? then FindChild(a, c) else if x.code == c then Some(|a|) else None
  {
    if |a| > 0 {
      assert (a + [x])[0] == a[0] && (a + [x])[1..] == a[1..] + [x];
      FindChildAppended(a[1..], x, c);
    }
  }

  // ---------------------------------------------------------------- tryValue, lemon_py

  /** `tryValue` of `lemon_py/ParserImpl.cpp` from position `pos` of `s`: at
      the end of the input or of the chain it bails out with this node's
      value and position, if it has a value; otherwise it tries, in order,
      every child whose code is the current character and returns the first
      match found below one, and bails out if none is found. */
  function TryValue(n: PTNode, s: string, pos: nat): (r: Option<(int, nat)>)
    requires pos <= |s|
    ensures r.Some? ==> pos <= r.value.1 <= |s|
    decreases |s| - pos, 1
  {
    if |n.children| == 0 || pos == |s| then Bailout(n, pos)
    else match TryChildren(n.children, s, pos, 0)
      case Some(found) => Some(found)
      case None => Bailout(n, pos)
  }

  /** The `bailout:` label: this node's value at the current position. */
  function Bailout(n: PTNode, pos: nat): Option<(int, nat)> {
    if n.value.Some? then Some((n.value.value, pos)) else None
  }

  /** The `for` loop of `tryValue` over the children from index `i`. */
  function TryChildren(cs: seq<PTNode>, s: string, pos: nat, i: nat): (r: Option<(int, nat)>)
    requires pos < |s|
    ensures r.Some? ==> pos < r.value.1 <= |s|
    decreases |s| - pos, 0, |cs| - i
  {
    if i >= |cs| then None
    else if s[pos] == cs[i].code then
      match TryValue(cs[i], s, pos + 1)
      case Some(found) => Some(found)
      case None => TryChildren(cs, s, pos, i + 1)
    else TryChildren(cs, s, pos, i + 1)
  }

  /** With distinct codes the loop tries only the one child matching the
      current character. */
  lemma {:induction false} TryChildrenMatching(cs: seq<PTNode>, s: string, pos: nat, i: nat)
    requires pos < |s| && i <= |cs|
    requires forall a, b :: 0 <= a < b < |cs| ==> cs[a].code != cs[b].code
    ensures TryChildren(cs, s, pos, i) ==
      match FindChild(cs, s[pos])
      case None => None
      case Some(j) => if i <= j then TryValue(cs[j], s, pos + 1) else None
    decreases |cs| - i
  {
    if i < |cs| {
      TryChildrenMatching(cs, s, pos, i + 1);
    }
  }

  /** Looking up a range of `s` one character in. */
  lemma GetStep(n: PTNode, s: string, pos: nat, e: nat)
    requires pos < e <= |s|
    ensures Get(n, s[pos..e]) ==
      match FindChild(n.children, s[pos])
      case None => None
      case Some(i) => Get(n.children[i], s[pos + 1..e])
  {
    assert s[pos..e][0] == s[pos] && s[pos..e][1..] == s[pos + 1..e];
  }

  /** `tryValue` finds the longest match: the value it returns is stored
      under the input from `pos` to the position it returns, no longer range
      from `pos` holds a value, and it returns nothing exactly when no range
      from `pos` does. */
  lemma {:induction false} TryValueLongest(n: PTNode, s: string, pos: nat)
    requires Distinct(n) && pos <= |s|
    ensures TryValue(n, s, pos).Some? ==>
      var (v, e) := TryValue(n, s, pos).value;
      pos <= e <= |s| && Get(n, s[pos..e]) == Some(v) &&
      forall e' :: e < e' <= |s| ==> Get(n, s[pos..e']).None?
    ensures TryValue(n, s, pos).None? ==> forall e :: pos <= e <= |s| ==> Get(n, s[pos..e]).None?
    decreases |s| - pos
  {
    assert s[pos..pos] == [];
    if pos < |s| {
      forall e | pos < e <= |s| {
        GetStep(n, s, pos, e);
      }
      if |n.children| > 0 {
        TryChildrenMatching(n.children, s, pos, 0);
        match FindChild(n.children, s[pos])
        case None =>
        case Some(i) =>
          TryValueLongest(n.children[i], s, pos + 1);
      }
    }
  }

  // ---------------------------------------------------------------- tryValue, crust prototype

  /** `tryValue` of `crust/PrefixTree.hpp`, which dereferences the current
      character and so needs a non-empty input: while more than one character
      is left it follows the first child matching the current character and
      returns what that child returns; otherwise, or when no child matches,
      it returns this node's value when the current character is this node's
      own code. */
  function CrustTryValue(n: PTNode, s: string, pos: nat): (r: Option<int>)
    requires pos < |s|
    decreases |s| - pos
  {
    var follow := if pos + 1 != |s| then FindChild(n.children, s[pos]) else None;
    match follow
    case Some(i) => CrustTryValue(n.children[i], s, pos + 1)
    case None => if s[pos] == n.code then n.value else None
  }

  /** The prototype only ever returns the value stored under a range that
      stops short of the end of the input, never the value under the whole
      input. */
  lemma {:induction false} CrustReturnsShorterKey(n: PTNode, s: string, pos: nat)
    requires pos < |s|
    ensures CrustTryValue(n, s, pos).Some? ==>
      exists e :: pos <= e < |s| && Get(n, s[pos..e]) == CrustTryValue(n, s, pos)
    decreases |s| - pos
  {
    assert s[pos..pos] == [];
    var follow := if pos + 1 != |s| then FindChild(n.children, s[pos]) else None;
    match follow
    case None =>
    case Some(i) =>
      CrustReturnsShorterKey(n.children[i], s, pos + 1);
      if CrustTryValue(n, s, pos).Some? {
        var e :| pos + 1 <= e < |s| && Get(n.children[i], s[pos + 1..e]) == CrustTryValue(n, s, pos);
        GetStep(n, s, pos, e);
      }
  }

  /** A tree holding only the literal `a`: the prototype does not find it,
      where the `lemon_py` lookup does. */
  lemma CrustMissesLiteral()
    ensures var t := AddValue(PTNode(0 as char, None, []), "a", 1);
      Get(t, "a") == Some(1) && CrustTryValue(t, "a", 0) == None && TryValue(t, "a", 0) == Some((1, 1))
  {
    var t := AddValue(PTNode(0 as char, None, []), "a", 1);
    AddValueGet(PTNode(0 as char, None, []), "a", 1);
    assert t == PTNode(0 as char, None, [PTNode('a', Some(1), [])]);
  }
}
