/**
  The node that materializes a virtual (scalar-replaced) object: the object's
  entries, one value node per slot, and the number of locks held on it. An
  object is *default* when it is created without locks and every entry is
  the default constant of its kind, so its allocation needs no stores.
 */
module Materialize {
  import opened Wrappers
  import opened JavaInt

  datatype JavaKind = Boolean | Byte | Short | Char | Int | Long | Float | Double | Object

  /**
    A constant: a primitive by its raw bits, or an object reference that is
    `null` when absent. The default of a primitive kind has raw bits zero
    (so `-0.0` is not the default `double`); the default object is `null`.
   */
  datatype Constant =
    | Primitive(kind: JavaKind, rawBits: int)
    | Reference(target: Option<nat>)

  predicate IsDefaultForKind(c: Constant) {
    match c
    case Primitive(_, bits) => bits == 0
    case Reference(target) => target.None?
  }

  /** A value node of the graph: a constant, or any other node. */
  datatype ValueNode = ConstantNode(constant: Constant) | OtherNode(id: nat)

  datatype VirtualObject = VirtualObject(isArray: bool, entryCount: nat)

  /** `values` holds one slot per entry; an empty slot is a Java `null`. */
  datatype MaterializeObject = MaterializeObject(
    virtualObject: VirtualObject,
    values: seq<Option<ValueNode>>,
    lockCount: int32)

  datatype MaterializeError = NullPointerException

  /** The constructor: one empty slot per entry of the virtual object. */
  function Create(virtualObject: VirtualObject, lockCount: int32): (n: MaterializeObject)
    ensures n.virtualObject == virtualObject && n.lockCount == lockCount
    ensures |n.values| == virtualObject.entryCount
    ensures forall i :: 0 <= i < |n.values| ==> n.values[i].None?
  {
    MaterializeObject(virtualObject, seq(virtualObject.entryCount, _ => None), lockCount)
  }

  /** What a caller does through `values().set(i, v)`: fill one slot. */
  function WithValue(n: MaterializeObject, i: nat, v: ValueNode): (m: MaterializeObject)
    requires i < |n.values|
    ensures m.virtualObject == n.virtualObject && m.lockCount == n.lockCount
    ensures |m.values| == |n.values| && m.values[i] == Some(v)
    ensures forall j :: 0 <= j < |n.values| && j != i ==> m.values[j] == n.values[j]
  {
    n.(values := n.values[i := Some(v)])
  }

  predicate IsDefaultValue(v: ValueNode) {
    v.ConstantNode? && IsDefaultForKind(v.constant)
  }

  /** The scan of the slots in order: `false` at the first non-default value, a `NullPointerException` at an empty slot met first. */
  function ScanDefault(values: seq<Option<ValueNode>>): Result<bool, MaterializeError> {
    if values == [] then Ok(true)
    else if values[0].None? then Err(NullPointerException)
    else if !IsDefaultValue(values[0].value) then Ok(false)
    else ScanDefault(values[1..])
  }

  /** `isDefault()`, specified. */
  function DefaultSpec(n: MaterializeObject): Result<bool, MaterializeError> {
    if n.lockCount > 0 then Ok(false) else ScanDefault(n.values)
  }

  /** `isDefault()`: the lock test, then one pass over the slots that stops at the first one that decides. */
  method IsDefault(n: MaterializeObject) returns (r: Result<bool, MaterializeError>)
    ensures r == DefaultSpec(n)
  {
    if n.lockCount > 0 {
      return Ok(false);
    }
    var i := 0;
    while i < |n.values|
      invariant 0 <= i <= |n.values|
      invariant ScanDefault(n.values[i..]) == ScanDefault(n.values)
    {
      assert n.values[i..][1..] == n.values[i + 1..];
      var value := n.values[i];
      if value.None? {
        return Err(NullPointerException);
      }
      if !IsDefaultValue(value.value) {
        return Ok(false);
      }
      i := i + 1;
    }
    return Ok(true);
  }

  /** Locks make an object non-default, whatever its entries. */
  lemma LockedIsNotDefault(n: MaterializeObject)
    requires n.lockCount > 0
    ensures DefaultSpec(n) == Ok(false)
  {
  }

  /** Default exactly when there are no locks and every slot holds a default constant. */
  lemma {:induction false} ScanDefaultIff(values: seq<Option<ValueNode>>)
    ensures ScanDefault(values) == Ok(true) <==>
      forall i :: 0 <= i < |values| ==> values[i].Some? && IsDefaultValue(values[i].value)
  {
    if values != [] {
      ScanDefaultIff(values[1..]);
      assert forall i :: 1 <= i < |values| ==> values[1..][i - 1] == values[i];
    }
  }

  lemma DefaultIff(n: MaterializeObject)
    ensures DefaultSpec(n) == Ok(true) <==>
      n.lockCount <= 0 &&
      forall i :: 0 <= i < |n.values| ==> n.values[i].Some? && IsDefaultValue(n.values[i].value)
  {
    ScanDefaultIff(n.values);
  }

  /** No slots and no locks: default. */
  lemma EmptyUnlockedIsDefault(virtualObject: VirtualObject, lockCount: int32)
    requires virtualObject.entryCount == 0 && lockCount <= 0
    ensures DefaultSpec(Create(virtualObject, lockCount)) == Ok(true)
  {
  }

  /**
    The scan fails with a `NullPointerException` exactly when there are no
    locks and an empty slot comes before any non-default value; a freshly
    created node with at least one slot and no locks is such a case.
   */
  lemma {:induction false} ScanDefaultNull(values: seq<Option<ValueNode>>)
    ensures ScanDefault(values).Err? <==>
      exists i :: 0 <= i < |values| && values[i].None? &&
        forall j :: 0 <= j < i ==> values[j].Some? && IsDefaultValue(values[j].value)
  {
    if values != [] {
      ScanDefaultNull(values[1..]);
      if values[0].Some? && IsDefaultValue(values[0].value) {
        if ScanDefault(values).Err? {
          var i :| 0 <= i < |values[1..]| && values[1..][i].None? &&
            forall j :: 0 <= j < i ==> values[1..][j].Some? && IsDefaultValue(values[1..][j].value);
          assert values[i + 1].None?;
          assert forall j :: 0 <= j < i + 1 ==> values[j].Some? && IsDefaultValue(values[j].value) by {
            forall j | 0 <= j < i + 1 ensures values[j].Some? && IsDefaultValue(values[j].value) {
              if j > 0 { assert values[1..][j - 1] == values[j]; }
            }
          }
        } else {
          forall i | 0 <= i < |values| && values[i].None?
            ensures exists j :: 0 <= j < i && !(values[j].Some? && IsDefaultValue(values[j].value))
          {
            assert i > 0 && values[1..][i - 1].None?;
            var j :| 0 <= j < i - 1 && !(values[1..][j].Some? && IsDefaultValue(values[1..][j].value));
            assert values[1..][j] == values[j + 1];
          }
        }
      }
    }
  }

  lemma FreshNodeThrows(virtualObject: VirtualObject, lockCount: int32)
    requires virtualObject.entryCount > 0 && lockCount <= 0
    ensures DefaultSpec(Create(virtualObject, lockCount)) == Err(NullPointerException)
  {
  }

  /** `length()`: the number of slots, for an array. */
  function Length(n: MaterializeObject): (length: nat)
    requires n.virtualObject.isArray
  {
    |n.values|
  }

  /** The length of an array is its entry count, and filling slots does not change it. */
  lemma LengthIsEntryCount(virtualObject: VirtualObject, lockCount: int32, fills: seq<(nat, ValueNode)>)
    requires virtualObject.isArray
    ensures var n := Fill(Create(virtualObject, lockCount), fills);
      n.virtualObject.isArray && Length(n) == virtualObject.entryCount
  {
    FillKeepsShape(Create(virtualObject, lockCount), fills);
  }

  /** Slots filled one after another, skipping indices out of range. */
  function Fill(n: MaterializeObject, fills: seq<(nat, ValueNode)>): MaterializeObject
    decreases |fills|
  {
    if fills == [] then n
    else
      var (i, v) := fills[0];
      Fill(if i < |n.values| then WithValue(n, i, v) else n, fills[1..])
  }

  lemma {:induction false} FillKeepsShape(n: MaterializeObject, fills: seq<(nat, ValueNode)>)
    decreases |fills|
    ensures Fill(n, fills).virtualObject == n.virtualObject
    ensures |Fill(n, fills).values| == |n.values|
    ensures Fill(n, fills).lockCount == n.lockCount
  {
    if fills != [] {
      var (i, v) := fills[0];
      FillKeepsShape(if i < |n.values| then WithValue(n, i, v) else n, fills[1..]);
    }
  }

  /** `canonical()`: the node is deleted (`None`) when nothing uses it, and kept otherwise. */
  function Canonical(n: MaterializeObject, usages: set<nat>): (r: Option<MaterializeObject>)
    ensures r.None? <==> usages == {}
    ensures r.Some? ==> r.value == n
  {
    if usages == {} then None else Some(n)
  }
}
