/**
  The runtime values the arithmetic nodes see, and the kind each one is
  classified as. Java `int` and `BigInteger` are both Python integers; strings
  are Java strings; lists carry one of the sequence storages. Every other kind
  (float, complex, tuple, array, set, user-defined object) is only ever passed
  on to code outside this model, so its values are opaque tokens.
 */
module PythonValues {
  import opened JavaInt

  /** Kinds whose values the model never looks inside. */
  datatype OpaqueKind = Double | Complex | Tuple | PArray | BaseSet | PythonObject

  datatype Kind =
    | IntKind
    | BigIntKind
    | StringKind
    | ListKind
    | NoneKind
    | OpaqueOf(which: OpaqueKind)

  /** The storage strategies of a `PList`. */
  datatype Storage =
    | IntStorage(ints: seq<int32>)
    | ObjectStorage(items: seq<Value>)
    | OtherStorage(id: nat)

  datatype Value =
    | Int(i: int32)
    | BigInt(n: int)
    | Str(s: string)
    | List(storage: Storage)
    | NoneValue
    | Opaque(kind: OpaqueKind, id: nat)

  /** Classification of a value: total and determined by its representation. */
  function KindOf(v: Value): (k: Kind)
    ensures k == IntKind <==> v.Int?
    ensures k == BigIntKind <==> v.BigInt?
    ensures k == StringKind <==> v.Str?
    ensures k == ListKind <==> v.List?
    ensures k == NoneKind <==> v.NoneValue?
    ensures k.OpaqueOf? <==> v.Opaque?
  {
    match v
    case Int(_) => IntKind
    case BigInt(_) => BigIntKind
    case Str(_) => StringKind
    case List(_) => ListKind
    case NoneValue => NoneKind
    case Opaque(o, _) => OpaqueOf(o)
  }

  /** A Python integer, whichever of the two Java representations holds it. */
  predicate IsInteger(v: Value) {
    v.Int? || v.BigInt?
  }

  function IntegerValue(v: Value): int
    requires IsInteger(v)
  {
    if v.Int? then v.i else v.n
  }
}
