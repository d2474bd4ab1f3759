/**
 * Validation of an entity before it is saved and of the attribute updates of
 * an update query. Java classes and values are modelled by the small closed
 * universe below; reflection on an entity is a lookup in its field map.
 */
module Validation {
  import opened Wrappers
  import opened JavaStrings

  /** The declared type of an attribute. */
  datatype JavaType =
    | StringT
    | IntegerT | IntT
    | LongT | LongPrimT
    | BooleanT | BooleanPrimT
    | DoubleT | DoublePrimT
    | ClassT(name: string)   // any other class, by canonical name

  /** A field value; `Obj` is an instance of some other class and the classes it can be cast to. */
  datatype Value =
    | Null
    | Str(s: string)
    | IntegerV(i: int)
    | LongV(l: int)
    | BooleanV(b: bool)
    | DoubleV(bits: int)
    | Obj(className: string, assignableTo: set<string>)

  /** value.getClass(): always a reference class, never a primitive one. */
  function ClassOf(v: Value): (t: JavaType)
    requires v != Null
    ensures !IsPrimitive(t)
  {
    match v
    case Str(_) => StringT
    case IntegerV(_) => IntegerT
    case LongV(_) => LongT
    case BooleanV(_) => BooleanT
    case DoubleV(_) => DoubleT
    case Obj(n, _) => ClassT(n)
  }

  predicate IsPrimitive(t: JavaType) {
    t in {IntT, LongPrimT, BooleanPrimT, DoublePrimT}
  }

  const OBJECT: string := "java.lang.Object"
  const SERIALIZABLE: string := "java.io.Serializable"
  const COMPARABLE: string := "java.lang.Comparable"
  const NUMBER: string := "java.lang.Number"
  const CHAR_SEQUENCE: string := "java.lang.CharSequence"

  /** The other classes and interfaces a value's class can be cast to. */
  function Supertypes(v: Value): (r: set<string>)
    requires v != Null
    ensures OBJECT in r
  {
    match v
    case Str(_) => {OBJECT, SERIALIZABLE, COMPARABLE, CHAR_SEQUENCE}
    case IntegerV(_) => {OBJECT, SERIALIZABLE, COMPARABLE, NUMBER}
    case LongV(_) => {OBJECT, SERIALIZABLE, COMPARABLE, NUMBER}
    case DoubleV(_) => {OBJECT, SERIALIZABLE, COMPARABLE, NUMBER}
    case BooleanV(_) => {OBJECT, SERIALIZABLE, COMPARABLE}
    case Obj(n, assignable) => {OBJECT, n} + assignable
  }

  /**
   * Class.cast succeeds: the value is an instance of the type. A primitive
   * type has no instances, so casting to one always fails.
   */
  function IsInstance(v: Value, t: JavaType): (b: bool)
    requires v != Null
    ensures t == ClassOf(v) ==> b
    ensures IsPrimitive(t) ==> !b
    ensures t == ClassT(OBJECT) ==> b
  {
    match t
    case StringT => v.Str?
    case IntegerT => v.IntegerV?
    case LongT => v.LongV?
    case BooleanT => v.BooleanV?
    case DoubleT => v.DoubleV?
    case ClassT(n) => n in Supertypes(v)
    case _ => false
  }

  datatype Generator = NONE | SEQUENCE

  datatype AttributeDescriptor = AttributeDescriptor(name: string, typ: JavaType, nullable: bool, size: int)

  datatype IdentifierDescriptor = IdentifierDescriptor(name: string, generator: Generator)

  /**
   * An entity descriptor: its attributes in iteration order, the names of its
   * indexed attributes and its identifier.
   */
  datatype EntityDescriptor = EntityDescriptor(
    attributes: seq<AttributeDescriptor>,
    indexes: set<string>,
    identifier: IdentifierDescriptor)

  /** descriptor.getAttributes().get(name). */
  function Lookup(attributes: seq<AttributeDescriptor>, name: string): (r: Option<AttributeDescriptor>)
    ensures r.Some? ==> r.value in attributes && r.value.name == name
    ensures r.None? ==> forall a :: a in attributes ==> a.name != name
  {
    if |attributes| == 0 then None
    else if attributes[0].name == name then Some(attributes[0])
    else Lookup(attributes[1..], name)
  }

  /** The EntityException kinds raised by validation. */
  datatype Violation =
    | AttributeNonNull(attribute: string)
    | AttributeSize(attribute: string)
    | IdentifierRequired(identifier: string)
    | AttributeMissing
    | AttributeTypeMismatch(expected: JavaType, actual: JavaType, attribute: string)
    | AttributeUpdateIdentifier(field: string)
    | UnknownException(cause: string)   // EntityException(UNKNOWN_EXCEPTION, cause)

  /** Anything thrown inside validation: an EntityException or some other exception, by class name. */
  datatype Thrown = Entity(violation: Violation) | Other(className: string)

  const NO_SUCH_FIELD: string := "java.lang.NoSuchFieldException"
  const CLASS_CAST: string := "java.lang.ClassCastException"
  const NULL_POINTER: string := "java.lang.NullPointerException"

  // ---------------------------------------------------------------------------
  // validateEntity
  // ---------------------------------------------------------------------------

  /** The check of one attribute of `entity`: what it throws, if anything. */
  function CheckAttribute(a: AttributeDescriptor, entity: map<string, Value>): (r: Option<Thrown>)
    ensures r == Some(Entity(AttributeNonNull(a.name))) <==> !a.nullable && a.name in entity && entity[a.name] == Null
    ensures r == Some(Entity(AttributeSize(a.name))) <==>
      (a.typ == StringT && a.name in entity && entity[a.name].Str? && a.size > -1 && |entity[a.name].s| > a.size
       && (a.nullable || entity[a.name] != Null))
    ensures (a.nullable && a.typ != StringT) ==> r.None?
    ensures r == Some(Other(NO_SUCH_FIELD)) <==> a.name !in entity && (!a.nullable || a.typ == StringT)
    ensures r.None? <==>
      (a.nullable || (a.name in entity && entity[a.name] != Null)) &&
      (a.typ == StringT ==>
         (a.name in entity &&
          (entity[a.name].Null? || (entity[a.name].Str? && !(|entity[a.name].s| > a.size && a.size > -1)))))
  {
    if !a.nullable && a.name !in entity then Some(Other(NO_SUCH_FIELD))
    else if !a.nullable && entity[a.name] == Null then Some(Entity(AttributeNonNull(a.name)))
    else if a.typ == StringT then
      if a.name !in entity then Some(Other(NO_SUCH_FIELD))
      else
        match entity[a.name]
        case Null => None
        case Str(s) => if |s| > a.size && a.size > -1 then Some(Entity(AttributeSize(a.name))) else None
        case _ => Some(Other(CLASS_CAST))
    else None
  }

  /** The identifier check, made only when the identifier is not generated. */
  function CheckIdentifier(id: IdentifierDescriptor, entity: map<string, Value>): (r: Option<Thrown>)
    ensures id.generator == SEQUENCE ==> r.None?
    ensures id.generator == NONE && id.name !in entity ==> r == Some(Other(NO_SUCH_FIELD))
    ensures r == Some(Entity(IdentifierRequired(id.name))) <==>
      (id.generator == NONE && id.name in entity && entity[id.name] == Null)
    ensures r.None? <==> id.generator != NONE || (id.name in entity && entity[id.name] != Null)
  {
    if id.generator != NONE then None
    else if id.name !in entity then Some(Other(NO_SUCH_FIELD))
    else if entity[id.name] == Null then Some(Entity(IdentifierRequired(id.name)))
    else None
  }

  /** What the attribute checks throw, in attribute order. */
  function AttributeViolations(attributes: seq<AttributeDescriptor>, entity: map<string, Value>): (r: seq<Thrown>)
    ensures |r| <= |attributes|
    ensures r == [] <==> forall a :: a in attributes ==> CheckAttribute(a, entity).None?
    ensures |attributes| > 0 && CheckAttribute(attributes[0], entity).Some? ==>
      r[0] == CheckAttribute(attributes[0], entity).value
  {
    if |attributes| == 0 then []
    else
      var rest := AttributeViolations(attributes[1..], entity);
      assert forall a :: a in attributes ==> a == attributes[0] || a in attributes[1..];
      match CheckAttribute(attributes[0], entity)
      case Some(t) => [t] + rest
      case None => rest
  }

  /** Everything validateEntity collects: the attribute violations, then the identifier's. */
  function Collected(d: EntityDescriptor, entity: map<string, Value>): seq<Thrown>
  {
    var ids := CheckIdentifier(d.identifier, entity);
    AttributeViolations(d.attributes, entity) + (if ids.Some? then [ids.value] else [])
  }

  /** The exception validateEntity throws for a collected one: itself, or wrapped as UNKNOWN_EXCEPTION. */
  function AsEntityException(t: Thrown): (v: Violation)
    ensures t.Entity? ==> v == t.violation
    ensures t.Other? ==> v == UnknownException(t.className)
  {
    match t
    case Entity(v) => v
    case Other(c) => UnknownException(c)
  }

  /**
   * validateEntity: true when nothing was collected, otherwise the first
   * collected exception as an EntityException.
   */
  function ValidateEntity(d: EntityDescriptor, entity: map<string, Value>): (r: Result<bool, Violation>)
    ensures r.Ok? ==> r.value
    ensures r.Ok? <==> ((forall a :: a in d.attributes ==> CheckAttribute(a, entity).None?)
      && CheckIdentifier(d.identifier, entity).None?)
    ensures r.Err? ==> r.error == AsEntityException(Collected(d, entity)[0])
  {
    var all := Collected(d, entity);
    if |all| > 0 then Err(AsEntityException(all[0])) else Ok(true)
  }

  /**
   * When every attribute before `a` passes, a null value for the
   * non-nullable `a` is what validateEntity reports.
   */
  lemma {:induction false} FirstNullNonNullableReported(d: EntityDescriptor, entity: map<string, Value>, k: nat)
    requires k < |d.attributes|
    requires forall j :: 0 <= j < k ==> CheckAttribute(d.attributes[j], entity).None?
    requires !d.attributes[k].nullable && d.attributes[k].name in entity && entity[d.attributes[k].name] == Null
    ensures ValidateEntity(d, entity) == Err(AttributeNonNull(d.attributes[k].name))
  {
    FirstViolationIsAt(d.attributes, entity, k);
  }

  /**
   * When every attribute before `a` passes, a String longer than the bounded
   * size of `a` is what validateEntity reports.
   */
  lemma {:induction false} FirstOverlongStringReported(d: EntityDescriptor, entity: map<string, Value>, k: nat)
    requires k < |d.attributes|
    requires forall j :: 0 <= j < k ==> CheckAttribute(d.attributes[j], entity).None?
    requires d.attributes[k].typ == StringT && d.attributes[k].size > -1
    requires d.attributes[k].name in entity && entity[d.attributes[k].name].Str?
    requires |entity[d.attributes[k].name].s| > d.attributes[k].size
    ensures ValidateEntity(d, entity) == Err(AttributeSize(d.attributes[k].name))
  {
    FirstViolationIsAt(d.attributes, entity, k);
  }

  /** The first attribute violation belongs to the first attribute whose check throws. */
  lemma {:induction false} FirstViolationIsAt(attributes: seq<AttributeDescriptor>, entity: map<string, Value>, k: nat)
    requires k < |attributes|
    requires forall j :: 0 <= j < k ==> CheckAttribute(attributes[j], entity).None?
    requires CheckAttribute(attributes[k], entity).Some?
    ensures |AttributeViolations(attributes, entity)| > 0
    ensures AttributeViolations(attributes, entity)[0] == CheckAttribute(attributes[k], entity).value
    decreases k
  {
    if k > 0 {
      FirstViolationIsAt(attributes[1..], entity, k - 1);
    }
  }

  /** The identifier is reported only when every attribute passes: it is collected last. */
  lemma IdentifierReportedLast(d: EntityDescriptor, entity: map<string, Value>)
    requires forall a :: a in d.attributes ==> CheckAttribute(a, entity).None?
    requires d.identifier.generator == NONE && d.identifier.name in entity && entity[d.identifier.name] == Null
    ensures ValidateEntity(d, entity) == Err(IdentifierRequired(d.identifier.name))
  {
    assert AttributeViolations(d.attributes, entity) == [];
  }

  /** A String attribute of unbounded size (-1) never reports a size violation. */
  lemma UnboundedStringPasses(a: AttributeDescriptor, entity: map<string, Value>)
    requires a.typ == StringT && a.size == -1 && a.nullable
    requires a.name in entity && (entity[a.name].Null? || entity[a.name].Str?)
    ensures CheckAttribute(a, entity).None?
  {
  }

  // ---------------------------------------------------------------------------
  // validateQuery
  // ---------------------------------------------------------------------------

  /** Boxed and primitive forms of the same type: "just a mutable immutable difference". */
  predicate BoxedPair(valueClass: JavaType, declared: JavaType) {
    (valueClass == IntegerT && declared == IntT)
    || (valueClass == LongT && declared == LongPrimT)
    || (valueClass == BooleanT && declared == BooleanPrimT)
    || (valueClass == DoubleT && declared == DoublePrimT)
  }

  /**
   * The type coercion at the end of one update: a value of the declared class
   * or of its boxed/primitive twin stays; an Integer for a long attribute is
   * widened to Long; anything else is cast, or is a type mismatch.
   */
  function Coerce(a: AttributeDescriptor, value: Value): (r: Result<Value, Violation>)
    ensures value == Null ==> r == Ok(Null)
    ensures value != Null && (ClassOf(value) == a.typ || BoxedPair(ClassOf(value), a.typ)) ==> r == Ok(value)
    ensures value.IntegerV? && a.typ in {LongT, LongPrimT} ==> r == Ok(LongV(value.i))
    ensures r.Err? <==> (value != Null && ClassOf(value) != a.typ && !BoxedPair(ClassOf(value), a.typ)
      && !(value.IntegerV? && a.typ in {LongT, LongPrimT}) && !IsInstance(value, a.typ))
    ensures r.Err? ==> r.error == AttributeTypeMismatch(a.typ, ClassOf(value), a.name)
  {
    if value == Null || ClassOf(value) == a.typ || BoxedPair(ClassOf(value), a.typ) then Ok(value)
    else if value.IntegerV? && (a.typ == LongT || a.typ == LongPrimT) then Ok(LongV(value.i))
    else if IsInstance(value, a.typ) then Ok(value)
    else Err(AttributeTypeMismatch(a.typ, ClassOf(value), a.name))
  }

  /**
   * One update exactly as validateQuery checks it: for a String attribute the
   * value's length is taken without a null test, so a null value for a
   * nullable String attribute ends in a NullPointerException.
   */
  function CheckUpdateAsWritten(d: EntityDescriptor, fieldName: string, value: Value): (r: Result<Value, Thrown>)
    ensures r.Err? && r.error.Other? ==> r.error == Other(NULL_POINTER)
    ensures r == Err(Other(NULL_POINTER)) <==>
      (Lookup(d.attributes, fieldName).Some? && Lookup(d.attributes, fieldName).value.typ == StringT &&
       Lookup(d.attributes, fieldName).value.nullable && value == Null)
  {
    match Lookup(d.attributes, fieldName)
    case None => Err(Entity(AttributeMissing))
    case Some(a) =>
      if !a.nullable && value == Null then Err(Entity(AttributeNonNull(a.name)))
      else if a.typ == StringT && value == Null then Err(Other(NULL_POINTER))
      else if a.typ == StringT && !value.Str? then Err(Entity(AttributeTypeMismatch(a.typ, ClassOf(value), a.name)))
      else if a.typ == StringT && |value.s| > a.size && a.size > -1 then Err(Entity(AttributeSize(a.name)))
      else if EqualsIgnoreCase(d.identifier.name, fieldName) then Err(Entity(AttributeUpdateIdentifier(fieldName)))
      else match Coerce(a, value)
        case Ok(v) => Ok(v)
        case Err(e) => Err(Entity(e))
  }

  /**
   * One update as validateQuery evidently means to check it: the length test
   * applies to non-null Strings only, so null stays a legal value of a
   * nullable String attribute.
   */
  function CheckUpdate(d: EntityDescriptor, fieldName: string, value: Value): (r: Result<Value, Violation>)
    ensures Lookup(d.attributes, fieldName).None? ==> r == Err(AttributeMissing)
    ensures r.Ok? ==> Lookup(d.attributes, fieldName).Some? && !EqualsIgnoreCase(d.identifier.name, fieldName)
    ensures r.Ok? && value == Null ==> r.value == Null && Lookup(d.attributes, fieldName).value.nullable
    ensures Lookup(d.attributes, fieldName).Some? ==>
      var a := Lookup(d.attributes, fieldName).value;
      (!a.nullable && value == Null ==> r == Err(AttributeNonNull(a.name))) &&
      (a.typ == StringT && value != Null && !value.Str? ==> r == Err(AttributeTypeMismatch(StringT, ClassOf(value), a.name))) &&
      (a.typ == StringT && value.Str? && a.size > -1 && |value.s| > a.size ==> r == Err(AttributeSize(a.name))) &&
      (r.Ok? ==> Coerce(a, value) == Ok(r.value))
  {
    match Lookup(d.attributes, fieldName)
    case None => Err(AttributeMissing)
    case Some(a) =>
      if !a.nullable && value == Null then Err(AttributeNonNull(a.name))
      else if a.typ == StringT && value != Null && !value.Str? then Err(AttributeTypeMismatch(a.typ, ClassOf(value), a.name))
      else if a.typ == StringT && value.Str? && |value.s| > a.size && a.size > -1 then Err(AttributeSize(a.name))
      else if EqualsIgnoreCase(d.identifier.name, fieldName) then Err(AttributeUpdateIdentifier(fieldName))
      else Coerce(a, value)
  }

  /** The as-written check throws a NullPointerException for a null update of a nullable String attribute. */
  lemma NullStringUpdateThrows()
    ensures var d := EntityDescriptor([AttributeDescriptor("name", StringT, true, 255)], {}, IdentifierDescriptor("id", NONE));
      CheckUpdateAsWritten(d, "name", Null) == Err(Other(NULL_POINTER))
      && CheckUpdate(d, "name", Null) == Ok(Null)
  {
    var d := EntityDescriptor([AttributeDescriptor("name", StringT, true, 255)], {}, IdentifierDescriptor("id", NONE));
    NotEqualsIgnoreCaseAt("id", "name", 0);
  }

  /** Apart from that one case, the corrected check behaves exactly as written. */
  lemma CheckUpdateAgreesAsWritten(d: EntityDescriptor, fieldName: string, value: Value)
    requires !(Lookup(d.attributes, fieldName).Some? && Lookup(d.attributes, fieldName).value.typ == StringT
      && Lookup(d.attributes, fieldName).value.nullable && value == Null)
    ensures CheckUpdateAsWritten(d, fieldName, value) == match CheckUpdate(d, fieldName, value)
      case Ok(v) => Ok(v)
      case Err(e) => Err(Entity(e))
  {
  }

  /** A null value is accepted unchanged for every nullable attribute other than the identifier. */
  lemma NullAcceptedWhenNullable(d: EntityDescriptor, fieldName: string)
    requires Lookup(d.attributes, fieldName).Some? && Lookup(d.attributes, fieldName).value.nullable
    requires !EqualsIgnoreCase(d.identifier.name, fieldName)
    ensures CheckUpdate(d, fieldName, Null) == Ok(Null)
  {
  }

  /** Updating the identifier, in any case, is refused once the value passed the null and String checks. */
  lemma IdentifierUpdateRefused(d: EntityDescriptor, fieldName: string, value: Value)
    requires Lookup(d.attributes, fieldName).Some?
    requires var a := Lookup(d.attributes, fieldName).value;
      value != Null && (a.typ == StringT ==> value.Str? && (a.size == -1 || |value.s| <= a.size))
    requires EqualsIgnoreCase(d.identifier.name, fieldName)
    ensures CheckUpdate(d, fieldName, value) == Err(AttributeUpdateIdentifier(fieldName))
  {
  }

  /** An Integer given for a Long or long attribute is stored as a Long of the same value. */
  lemma IntegerWidenedToLong(d: EntityDescriptor, fieldName: string, i: int)
    requires Lookup(d.attributes, fieldName).Some? && Lookup(d.attributes, fieldName).value.typ in {LongT, LongPrimT}
    requires !EqualsIgnoreCase(d.identifier.name, fieldName)
    ensures CheckUpdate(d, fieldName, IntegerV(i)) == Ok(LongV(i))
  {
  }

  /**
   * A number is accepted unchanged by an attribute declared as
   * java.lang.Number, as Class.cast lets it through.
   */
  lemma NumberCastAccepted(d: EntityDescriptor, fieldName: string, value: Value)
    requires Lookup(d.attributes, fieldName).Some? && Lookup(d.attributes, fieldName).value.typ == ClassT(NUMBER)
    requires !EqualsIgnoreCase(d.identifier.name, fieldName)
    requires value.IntegerV? || value.LongV? || value.DoubleV?
    ensures CheckUpdate(d, fieldName, value) == Ok(value)
  {
    assert NUMBER in Supertypes(value);
  }

  /** A value that is no instance of a primitive attribute's boxed twin is a type mismatch. */
  lemma PrimitiveMismatch(d: EntityDescriptor, fieldName: string, value: Value)
    requires Lookup(d.attributes, fieldName).Some?
    requires Lookup(d.attributes, fieldName).value.typ == BooleanPrimT
    requires !EqualsIgnoreCase(d.identifier.name, fieldName)
    requires value != Null && !value.BooleanV?
    ensures CheckUpdate(d, fieldName, value) == Err(AttributeTypeMismatch(BooleanPrimT, ClassOf(value), fieldName))
  {
  }

  /** An instruction of an update query, which validation completes in place. */
  class AttributeUpdate {
    var fieldName: string
    var value: Value
    var attributeDescriptor: Option<AttributeDescriptor>
    var indexController: Option<string>

    constructor (fieldName: string, value: Value)
      ensures this.fieldName == fieldName && this.value == value
      ensures attributeDescriptor == None && indexController == None
    {
      this.fieldName := fieldName;
      this.value := value;
      attributeDescriptor := None;
      indexController := None;
    }
  }

  function Objects(updates: Option<seq<AttributeUpdate>>): set<object>
  {
    if updates.None? then {} else set u | u in updates.value
  }

  /** The first update at or after `i` that the corrected check refuses, or the length. */
  function FirstFailure(d: EntityDescriptor, names: seq<string>, values: seq<Value>, i: nat): (k: nat)
    requires |names| == |values| && i <= |names|
    ensures i <= k <= |names|
    ensures forall j :: i <= j < k ==> CheckUpdate(d, names[j], values[j]).Ok?
    ensures k < |names| ==> CheckUpdate(d, names[k], values[k]).Err?
    decreases |names| - i
  {
    if i == |names| then i
    else if CheckUpdate(d, names[i], values[i]).Err? then i
    else FirstFailure(d, names, values, i + 1)
  }

  /**
   * An update has been given its attribute descriptor and, for an indexed
   * field, its index controller (`before` is the controller it had).
   */
  predicate Prepared(d: EntityDescriptor, u: AttributeUpdate, before: Option<string>)
    reads u
  {
    u.attributeDescriptor == Lookup(d.attributes, u.fieldName)
    && u.indexController == (if u.fieldName in d.indexes then Some(u.fieldName) else before)
  }

  /**
   * One update of the loop: it is given its attribute descriptor and, for an
   * indexed field, its index controller; then it is checked, and a passing
   * update keeps its coerced value.
   */
  method ValidateUpdate(d: EntityDescriptor, u: AttributeUpdate) returns (check: Result<Value, Violation>)
    modifies u
    ensures check == CheckUpdate(d, old(u.fieldName), old(u.value))
    ensures Prepared(d, u, old(u.indexController)) && u.fieldName == old(u.fieldName)
    ensures u.value == if check.Ok? then check.value else old(u.value)
  {
    u.attributeDescriptor := Lookup(d.attributes, u.fieldName);
    if u.fieldName in d.indexes {
      u.indexController := Some(u.fieldName);
    }
    check := CheckUpdate(d, u.fieldName, u.value);
    if check.Ok? {
      u.value := check.value;
    }
  }

  function Names(us: seq<AttributeUpdate>): (r: seq<string>)
    reads us
    ensures |r| == |us| && forall i :: 0 <= i < |us| ==> r[i] == us[i].fieldName
  {
    seq(|us|, i requires 0 <= i < |us| reads us => us[i].fieldName)
  }

  function Values(us: seq<AttributeUpdate>): (r: seq<Value>)
    reads us
    ensures |r| == |us| && forall i :: 0 <= i < |us| ==> r[i] == us[i].value
  {
    seq(|us|, i requires 0 <= i < |us| reads us => us[i].value)
  }

  /**
   * validateQuery: no update list passes; otherwise the updates are checked
   * as ValidateUpdates describes.
   */
  method ValidateQuery(d: EntityDescriptor, updates: Option<seq<AttributeUpdate>>) returns (r: Result<bool, Violation>)
    requires updates.Some? ==> forall i, j :: 0 <= i < j < |updates.value| ==> updates.value[i] != updates.value[j]
    modifies Objects(updates)
    ensures updates.None? ==> r == Ok(true)
    ensures updates.Some? ==>
      var k := FirstFailure(d, old(Names(updates.value)), old(Values(updates.value)), 0);
      r == (if k == |updates.value| then Ok(true) else Err(CheckUpdate(d, old(Names(updates.value))[k], old(Values(updates.value))[k]).error))
  {
    if updates.None? {
      return Ok(true);
    }
    ghost var k;
    r, k := ValidateUpdates(d, updates.value);
  }

  /**
   * The loop of validateQuery: the updates are checked in order; each is given
   * its attribute descriptor (and index controller when the field is indexed)
   * before it is checked; a passing update keeps its coerced value; the first
   * refused update ends the validation with its exception and the updates
   * after it are untouched.
   */
  method ValidateUpdates(d: EntityDescriptor, us: seq<AttributeUpdate>) returns (r: Result<bool, Violation>, ghost k: nat)
    requires forall i, j :: 0 <= i < j < |us| ==> us[i] != us[j]
    modifies us
    ensures k == FirstFailure(d, old(Names(us)), old(Values(us)), 0)
    ensures r == (if k == |us| then Ok(true) else Err(CheckUpdate(d, old(Names(us))[k], old(Values(us))[k]).error))
    ensures Names(us) == old(Names(us))
    ensures forall i :: 0 <= i < k ==> us[i].value == CheckUpdate(d, us[i].fieldName, old(us[i].value)).value
    ensures forall i :: 0 <= i <= k && i < |us| ==> Prepared(d, us[i], old(us[i].indexController))
    ensures forall i :: k <= i < |us| ==> us[i].value == old(us[i].value)
    ensures forall i :: k < i < |us| ==>
      us[i].attributeDescriptor == old(us[i].attributeDescriptor) && us[i].indexController == old(us[i].indexController)
  {
    ghost var names := Names(us);
    ghost var values := Values(us);
    ghost var descriptors := seq(|us|, i requires 0 <= i < |us| reads us => us[i].attributeDescriptor);
    ghost var controllers := seq(|us|, i requires 0 <= i < |us| reads us => us[i].indexController);
    ghost var checks := seq(|us|, i requires 0 <= i < |us| => CheckUpdate(d, names[i], values[i]));
    var i := 0;
    r := Ok(true);
    while i < |us|
      invariant r == Ok(true) && CheckedUpTo(d, us, i, names, values, descriptors, controllers, checks)
    {
      var check := ValidateNext(d, us, i, names, values, descriptors, controllers, checks);
      if check.Err? {
        r := Err(check.error);
        break;
      }
      i := i + 1;
    }
    k := i;
    FirstFailureIs(d, names, values, k);
  }

  /** The updates before `i` passed and are prepared; the ones from `i` on are as they were. */
  ghost predicate CheckedUpTo(d: EntityDescriptor, us: seq<AttributeUpdate>, i: nat, names: seq<string>, values: seq<Value>,
                              descriptors: seq<Option<AttributeDescriptor>>, controllers: seq<Option<string>>,
                              checks: seq<Result<Value, Violation>>)
    reads us
  {
    i <= |us| == |names| == |values| == |descriptors| == |controllers| == |checks|
    && (forall j :: 0 <= j < |us| ==> us[j].fieldName == names[j])
    && (forall j :: 0 <= j < i ==> checks[j].Ok? && us[j].value == checks[j].value && Prepared(d, us[j], controllers[j]))
    && (forall j :: i <= j < |us| ==>
          us[j].value == values[j] && us[j].attributeDescriptor == descriptors[j] && us[j].indexController == controllers[j])
  }

  /** The update at `i` was refused: it is prepared and keeps its value; the others are as `CheckedUpTo(i)` has them. */
  ghost predicate StoppedAt(d: EntityDescriptor, us: seq<AttributeUpdate>, i: nat, names: seq<string>, values: seq<Value>,
                            descriptors: seq<Option<AttributeDescriptor>>, controllers: seq<Option<string>>,
                            checks: seq<Result<Value, Violation>>)
    reads us
  {
    i < |us| == |names| == |values| == |descriptors| == |controllers| == |checks|
    && (forall j :: 0 <= j < |us| ==> us[j].fieldName == names[j])
    && (forall j :: 0 <= j < i ==> checks[j].Ok? && us[j].value == checks[j].value && Prepared(d, us[j], controllers[j]))
    && checks[i].Err? && Prepared(d, us[i], controllers[i]) && us[i].value == values[i]
    && (forall j :: i < j < |us| ==>
          us[j].value == values[j] && us[j].attributeDescriptor == descriptors[j] && us[j].indexController == controllers[j])
  }

  /**
   * The body of the loop of validateQuery for the update at `i`: the updates
   * before it are already checked and prepared, the ones after it are still
   * untouched, and only the update at `i` changes.
   */
  method ValidateNext(d: EntityDescriptor, us: seq<AttributeUpdate>, i: nat, ghost names: seq<string>, ghost values: seq<Value>,
                      ghost descriptors: seq<Option<AttributeDescriptor>>, ghost controllers: seq<Option<string>>,
                      ghost checks: seq<Result<Value, Violation>>)
    returns (check: Result<Value, Violation>)
    requires forall i, j :: 0 <= i < j < |us| ==> us[i] != us[j]
    requires i < |us| && CheckedUpTo(d, us, i, names, values, descriptors, controllers, checks)
    requires checks[i] == CheckUpdate(d, names[i], values[i])
    modifies us[i]
    ensures check == checks[i]
    ensures check.Ok? ==> CheckedUpTo(d, us, i + 1, names, values, descriptors, controllers, checks)
    ensures check.Err? ==> StoppedAt(d, us, i, names, values, descriptors, controllers, checks)
  {
    check := ValidateUpdate(d, us[i]);
    forall j | 0 <= j < |us| && j != i
      ensures us[j] != us[i]
    {
      if j < i {
        assert us[j] != us[i];
      } else {
        assert us[i] != us[j];
      }
    }
  }

  /** The first failure is the `k` before which every update passes and at which one fails (or the end). */
  lemma {:induction false} FirstFailureIs(d: EntityDescriptor, names: seq<string>, values: seq<Value>, k: nat)
    requires |names| == |values| && k <= |names|
    requires forall j :: 0 <= j < k ==> CheckUpdate(d, names[j], values[j]).Ok?
    requires k < |names| ==> CheckUpdate(d, names[k], values[k]).Err?
    ensures FirstFailure(d, names, values, 0) == k
  {
    FirstFailureFrom(d, names, values, 0, k);
  }

  lemma {:induction false} FirstFailureFrom(d: EntityDescriptor, names: seq<string>, values: seq<Value>, i: nat, k: nat)
    requires |names| == |values| && i <= k <= |names|
    requires forall j :: i <= j < k ==> CheckUpdate(d, names[j], values[j]).Ok?
    requires k < |names| ==> CheckUpdate(d, names[k], values[k]).Err?
    ensures FirstFailure(d, names, values, i) == k
    decreases k - i
  {
    if i < k {
      FirstFailureFrom(d, names, values, i + 1, k);
    }
  }
}
