/**
  The sequence storages behind a list, as objects on the heap, and the two
  list-concatenation rules of Add: copy the left storage, extend the copy
  with the right one, and wrap the copy in a new list. Neither operand's
  storage changes, even when both operands are the same list.
 */
module ListStorage {
  import opened JavaInt
  import opened PythonValues
  import opened ArithmeticRules

  /** An `IntSequenceStorage` (with `T = int32`) or an `ObjectSequenceStorage` (with `T = Value`). */
  class SequenceStorage<T> {
    var values: seq<T>

    constructor (values: seq<T>)
      ensures this.values == values
    {
      this.values := values;
    }

    /** `copy()`: a new storage with the same items. */
    method Copy() returns (c: SequenceStorage<T>)
      ensures fresh(c) && c.values == values
    {
      c := new SequenceStorage(values);
    }

    /** `extend(other)`: the items of `other` appended to this storage; `other` is only read. */
    method Extend(other: SequenceStorage<T>)
      modifies this
      ensures values == old(values) + old(other.values)
    {
      values := values + other.values;
    }
  }

  /**
    `doPListInt` and `doPListObject`: the new list holds the left items, then
    the right ones, in a storage of its own; the operands keep theirs.
   */
  method ConcatStorages<T>(left: SequenceStorage<T>, right: SequenceStorage<T>) returns (result: SequenceStorage<T>)
    ensures fresh(result)
    ensures result.values == left.values + right.values
    ensures left.values == old(left.values) && right.values == old(right.values)
  {
    result := left.Copy();
    result.Extend(right);
  }

  /** On `int` storages the heap operation produces the list value the Add rule computes. */
  method ConcatIntStorages(left: SequenceStorage<int32>, right: SequenceStorage<int32>) returns (result: SequenceStorage<int32>)
    ensures fresh(result)
    ensures Returned(List(IntStorage(result.values))) ==
      Compute(IntStorageConcat, List(IntStorage(left.values)), List(IntStorage(right.values)))
    ensures left.values == old(left.values) && right.values == old(right.values)
  {
    result := ConcatStorages(left, right);
  }

  /** The same for object storages. */
  method ConcatObjectStorages(left: SequenceStorage<Value>, right: SequenceStorage<Value>) returns (result: SequenceStorage<Value>)
    ensures fresh(result)
    ensures Returned(List(ObjectStorage(result.values))) ==
      Compute(ObjectStorageConcat, List(ObjectStorage(left.values)), List(ObjectStorage(right.values)))
    ensures left.values == old(left.values) && right.values == old(right.values)
  {
    result := ConcatStorages(left, right);
  }
}
