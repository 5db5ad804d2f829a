/**
  The result of parsing a Python program: the module's root node, the
  context, and a registry of function root nodes by name. A function whose
  name is already taken is registered under the name followed by the decimal
  rendering of its hash code instead, so the first function of that name
  keeps its entry.
 */
module ParseResult {
  import opened Wrappers
  import opened JavaInt
  import opened JavaDecimal

  /** A root node: its identity and the `int` its `hashCode()` returns. */
  datatype RootNode = RootNode(id: nat, hashCode: int32)

  datatype PythonContext = PythonContext(id: nat)

  /** The key a function is stored under when its name is already taken. */
  function RenamedKey(name: string, root: RootNode): (key: string)
    ensures |key| > |name| && key[..|name|] == name
  {
    name + JavaIntToString(root.hashCode)
  }

  /**
    The registry after `addParsedFunction(name, root)`: the new root is always
    registered, no key is dropped, and a function already under `name` keeps
    that key.
   */
  function WithFunction(functions: map<string, RootNode>, name: string, root: RootNode): (r: map<string, RootNode>)
    ensures name in r && root in r.Values
    ensures forall k :: k in functions ==> k in r
    ensures name in functions ==> r[name] == functions[name]
    ensures name !in functions ==> r[name] == root
  {
    if name in functions then
      var key := RenamedKey(name, root);
      assert key != name;
      var r := functions[key := root];
      assert r[key] == root;
      r
    else
      var r := functions[name := root];
      assert r[name] == root;
      r
  }

  class PythonParseResult {
    var moduleRoot: Option<RootNode>
    var context: Option<PythonContext>
    var functions: map<string, RootNode>

    /** A new result: no module, no context, no functions. */
    constructor ()
      ensures moduleRoot == None && context == None && functions == map[]
    {
      moduleRoot := None;
      context := None;
      functions := map[];
    }

    function GetModuleRoot(): Option<RootNode>
      reads this
    {
      moduleRoot
    }

    method SetModule(root: Option<RootNode>)
      modifies this
      ensures GetModuleRoot() == root
      ensures context == old(context) && functions == old(functions)
    {
      moduleRoot := root;
    }

    function GetContext(): Option<PythonContext>
      reads this
    {
      context
    }

    method SetContext(c: Option<PythonContext>)
      modifies this
      ensures GetContext() == c
      ensures moduleRoot == old(moduleRoot) && functions == old(functions)
    {
      context := c;
    }

    method AddParsedFunction(name: string, root: RootNode)
      modifies this
      ensures functions == WithFunction(old(functions), name, root)
      ensures moduleRoot == old(moduleRoot) && context == old(context)
    {
      if name in functions {
        functions := functions[name + JavaIntToString(root.hashCode) := root];
      } else {
        functions := functions[name := root];
      }
    }

    /**
      The registered root nodes, one per key: `keys` lists every key once, and
      the `i`-th root is the one stored under the `i`-th key. The roots are
      exactly the map's values.
     */
    method GetFunctionRoots() returns (roots: seq<RootNode>, ghost keys: seq<string>)
      ensures |roots| == |keys| == |functions|
      ensures forall i, j :: 0 <= i < j < |keys| ==> keys[i] != keys[j]
      ensures forall i :: 0 <= i < |keys| ==> keys[i] in functions && roots[i] == functions[keys[i]]
      ensures forall k :: k in functions ==> k in keys
      ensures |roots| == |functions| && forall r :: r in roots <==> r in functions.Values
    {
      roots, keys := [], [];
      var remaining := functions.Keys;
      while remaining != {}
        invariant remaining <= functions.Keys
        invariant forall k :: k in functions ==> (k in remaining <==> k !in keys)
        invariant |roots| == |keys| && |keys| + |remaining| == |functions|
        invariant forall i, j :: 0 <= i < j < |keys| ==> keys[i] != keys[j]
        invariant forall i :: 0 <= i < |keys| ==> keys[i] in functions && roots[i] == functions[keys[i]]
        decreases |remaining|
      {
        var k :| k in remaining;
        roots, keys := roots + [functions[k]], keys + [k];
        remaining := remaining - {k};
      }
      forall r | r in functions.Values ensures r in roots {
        var k :| k in functions && functions[k] == r;
        var i :| 0 <= i < |keys| && keys[i] == k;
        assert roots[i] == r;
      }
    }
  }

  /** A name not yet taken: the function is stored under exactly that name. */
  lemma AddUnderFreshName(functions: map<string, RootNode>, name: string, root: RootNode)
    requires name !in functions
    ensures WithFunction(functions, name, root) == functions[name := root]
    ensures |WithFunction(functions, name, root)| == |functions| + 1
  {
  }

  /**
    A name already taken: the existing function keeps that name and the new
    one is stored under the renamed key, replacing whatever was there.
   */
  lemma AddUnderTakenName(functions: map<string, RootNode>, name: string, root: RootNode)
    requires name in functions
    ensures var after := WithFunction(functions, name, root);
      && after[name] == functions[name]
      && after[RenamedKey(name, root)] == root
      && (RenamedKey(name, root) in functions ==> |after| == |functions|)
      && (RenamedKey(name, root) !in functions ==> |after| == |functions| + 1)
  {
    assert RenamedKey(name, root) != name;
  }

  /**
    Every addition writes the new function under one key and leaves every
    other key as it was, so the registry grows by at most one entry.
   */
  lemma AddTouchesOneKey(functions: map<string, RootNode>, name: string, root: RootNode)
    ensures var after := WithFunction(functions, name, root);
      && (after[name] == root || after[RenamedKey(name, root)] == root)
      && (forall k :: k != name && k != RenamedKey(name, root) ==>
            (k in after <==> k in functions) && (k in functions ==> after[k] == functions[k]))
      && functions.Keys <= after.Keys
      && |functions| <= |after| <= |functions| + 1
  {
    assert RenamedKey(name, root) != name;
  }

  /** Two functions with the same taken name but different hash codes get different keys. */
  lemma RenamedKeysDiffer(name: string, f: RootNode, g: RootNode)
    requires f.hashCode != g.hashCode
    ensures RenamedKey(name, f) != RenamedKey(name, g)
  {
    if RenamedKey(name, f) == RenamedKey(name, g) {
      assert RenamedKey(name, f)[|name|..] == JavaIntToString(f.hashCode);
      assert RenamedKey(name, g)[|name|..] == JavaIntToString(g.hashCode);
      JavaIntToStringInjective(f.hashCode, g.hashCode);
    }
  }

  /** Registering `f` and then `g` under one fresh name keeps both, whatever their hash codes... */
  lemma TwoFunctionsOneName(functions: map<string, RootNode>, name: string, f: RootNode, g: RootNode)
    requires name !in functions
    ensures var after := WithFunction(WithFunction(functions, name, f), name, g);
      after[name] == f && after[RenamedKey(name, g)] == g
  {
    assert RenamedKey(name, g) != name;
  }

  /** ...but a third function with the same name and hash code as the second silently replaces it. */
  lemma SameHashOverwrites(functions: map<string, RootNode>, name: string, f: RootNode, g: RootNode, h: RootNode)
    requires name !in functions && RenamedKey(name, g) !in functions && g.hashCode == h.hashCode
    ensures var after := WithFunction(WithFunction(WithFunction(functions, name, f), name, g), name, h);
      && after[name] == f && after[RenamedKey(name, g)] == h
      && |after| == |functions| + 2
  {
    var k := RenamedKey(name, g);
    assert k != name && RenamedKey(name, h) == k;
  }
}
