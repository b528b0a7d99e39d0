/**
 A closed model of the CLR values that can sit in a slot of static type
 `object`, and of the two pieces of the type system the parameter store
 relies on: the `is T` test and `default(T)`.
 */
module ClrValues {

  /** System.Int32 and System.Int64: boxed integers keep their width. */
  newtype int32 = x: int | -0x8000_0000 <= x < 0x8000_0000
  newtype int64 = x: int | -0x8000_0000_0000_0000 <= x < 0x8000_0000_0000_0000

  /** What an `object` slot holds: the null reference, a string, a boxed
      value of one of the modelled value types, or a reference to an
      instance of some class the model does not name (compared by identity). */
  datatype Value =
    | Null
    | Str(s: string)
    | Int(i: int32)
    | Long(l: int64)
    | Bool(b: bool)
    | Ref(id: nat)

  /** The type arguments a caller may pass to a typed lookup. */
  datatype TypeTag = StringType | Int32Type | Int64Type | BooleanType | ObjectType

  /** `string` and `object` are reference types; the others are value types. */
  predicate IsReferenceType(t: TypeTag) {
    t == StringType || t == ObjectType
  }

  /** The C# pattern `v is T`: false for null, otherwise true when the
      runtime type of `v` is `T` or `T` is `object`. Unboxing is exact, so a
      boxed long is not an int and a boxed int is not a long. */
  predicate IsInstance(v: Value, t: TypeTag)
    ensures IsInstance(v, t) ==> v != Null
    ensures t == ObjectType && v != Null ==> IsInstance(v, t)
  {
    match t
    case ObjectType => !v.Null?
    case StringType => v.Str?
    case Int32Type => v.Int?
    case Int64Type => v.Long?
    case BooleanType => v.Bool?
  }

  /** The values a variable of static type `T` can hold: its instances,
      and null when `T` is a reference type. */
  predicate AssignableTo(v: Value, t: TypeTag)
    ensures IsInstance(v, t) ==> AssignableTo(v, t)
    ensures AssignableTo(v, t) && !IsReferenceType(t) ==> v != Null
  {
    IsInstance(v, t) || (v.Null? && IsReferenceType(t))
  }

  /** `default(T)`: null for reference types, the zero of a value type. */
  function Default(t: TypeTag): (d: Value)
    ensures d.Null? <==> IsReferenceType(t)
    ensures !IsReferenceType(t) ==> IsInstance(d, t)
    ensures AssignableTo(d, t)
  {
    match t
    case StringType => Null
    case ObjectType => Null
    case Int32Type => Int(0)
    case Int64Type => Long(0)
    case BooleanType => Bool(false)
  }

  /** The null reference is an instance of no type, and every non-null
      value is an instance of `object` and of at most one other tag. */
  lemma IsInstanceCharacterised(v: Value, t: TypeTag, u: TypeTag)
    ensures !IsInstance(Null, t)
    ensures t == ObjectType && v != Null ==> IsInstance(v, t)
    ensures IsInstance(v, t) && IsInstance(v, u) && t != u ==> t == ObjectType || u == ObjectType
  {
  }
}
