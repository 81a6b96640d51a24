/**
 * The tagged value union of the VM (src/value.h): a four-member type tag and a payload.
 * Object references are handles into the object registry rather than raw pointers.
 */
module Value {
  /** A byte of a string or of bytecode. */
  type Byte = bv8

  /** An index into the object registry; it stands for a `Clox_Object*`. */
  type Handle = nat

  /** An IEEE-754 double, kept as its bit pattern; arithmetic on it is supplied by the host. */
  datatype Num = Float64(bits: bv64)

  /** `Clox_Value_Type`: the four tags, in declaration order. */
  datatype ValueType = NilType | BoolType | NumberType | ObjectType

  /** `Clox_Value`: one constructor per tag, each carrying the payload its tag selects. */
  datatype Value =
    | Nil
    | Bool(boolean: bool)
    | Number(number: Num)
    | ObjectRef(handle: Handle)

  /** The `type` field of a value. */
  function TypeOf(v: Value): ValueType
  {
    match v
    case Nil => NilType
    case Bool(_) => BoolType
    case Number(_) => NumberType
    case ObjectRef(_) => ObjectType
  }

  /** `CLOX_VALUE_IS_NIL` and friends: each compares the tag and nothing else. */
  predicate IsNil(v: Value) { TypeOf(v) == NilType }
  predicate IsBool(v: Value) { TypeOf(v) == BoolType }
  predicate IsNumber(v: Value) { TypeOf(v) == NumberType }
  predicate IsObject(v: Value) { TypeOf(v) == ObjectType }

  /** Lox truthiness: only nil and false are falsy. */
  predicate IsFalsy(v: Value)
  {
    v.Nil? || v == Bool(false)
  }

  /** `CLOX_VALUE_BOOL`, `CLOX_VALUE_NUMBER` and `CLOX_VALUE_OBJECT` set the matching tag and keep the payload. */
  lemma ConstructorsSetTagAndPayload(b: bool, n: Num, h: Handle)
    ensures IsBool(Bool(b)) && !IsNil(Bool(b)) && !IsNumber(Bool(b)) && !IsObject(Bool(b))
    ensures Bool(b).boolean == b
    ensures IsNumber(Number(n)) && !IsNil(Number(n)) && !IsBool(Number(n)) && !IsObject(Number(n))
    ensures Number(n).number == n
    ensures IsObject(ObjectRef(h)) && !IsNil(ObjectRef(h)) && !IsBool(ObjectRef(h)) && !IsNumber(ObjectRef(h))
    ensures ObjectRef(h).handle == h
  {
  }

  /** `CLOX_VALUE_NIL` carries the nil tag, so only `IS_NIL` holds of it. */
  lemma NilHasNilTag()
    ensures IsNil(Nil) && !IsBool(Nil) && !IsNumber(Nil) && !IsObject(Nil)
  {
  }

  /** Exactly one of the four tag predicates holds of any value. */
  lemma ExactlyOneTag(v: Value)
    ensures IsNil(v) || IsBool(v) || IsNumber(v) || IsObject(v)
    ensures IsNil(v) ==> !IsBool(v) && !IsNumber(v) && !IsObject(v)
    ensures IsBool(v) ==> !IsNumber(v) && !IsObject(v)
    ensures IsNumber(v) ==> !IsObject(v)
  {
  }

  /** The predicates look at the tag only: values with the same tag agree on all four. */
  lemma PredicatesDependOnTagOnly(v: Value, w: Value)
    requires TypeOf(v) == TypeOf(w)
    ensures IsNil(v) == IsNil(w) && IsBool(v) == IsBool(w)
    ensures IsNumber(v) == IsNumber(w) && IsObject(v) == IsObject(w)
  {
  }

  /** Falsy values are exactly nil and false; in particular every number and object is truthy. */
  lemma FalsyValues(v: Value)
    ensures IsFalsy(v) <==> (IsNil(v) || (IsBool(v) && !v.boolean))
  {
  }
}
