/**
 * An abstract description of the .NET reflection data the core reads:
 * a type's names, its base type, the interfaces it implements, its
 * attributes, constructors, public properties and public fields.
 * Type identity is equality of descriptors.
 */
module Types {
  import opened Wrappers

  datatype TypeKind = Class | Interface | Struct | Enum

  /** The custom attributes the core inspects; anything else is `OtherAttribute`. */
  datatype Attribute =
    | DisplayNameAttribute(displayName: string)
    | DescriptionAttribute(description: string)
    | ServiceBehaviorAttribute(name: Option<string>)
    | ServiceContractAttribute
    | FlagsAttribute
    | OtherAttribute(typeName: string)

  /** An instance or static constructor. */
  datatype Ctor = Ctor(isPublic: bool, isStatic: bool, parameterCount: nat)

  /**
   * A type as reflection sees it.  `interfaces` is what `GetInterfaces()`
   * returns (inherited ones included); `properties` and `fields` are the
   * public instance members, inherited ones included, in the order reflection lists them.
   * A constructed generic type has `genericDefinition == Some(def)` and its
   * `typeArguments`; a generic type definition has `isGenericTypeDefinition`.
   */
  datatype TypeDesc = TypeDesc(
    name: string,
    fullName: string,
    assemblyName: string,
    kind: TypeKind,
    isAbstract: bool,
    isGenericTypeDefinition: bool,
    genericDefinition: Option<TypeDesc>,
    typeArguments: seq<TypeDesc>,
    baseType: Option<TypeDesc>,
    interfaces: seq<TypeDesc>,
    attributes: seq<Attribute>,
    constructors: seq<Ctor>,
    properties: seq<PropertyDesc>,
    fields: seq<FieldDesc>)

  /** A public instance property; `yieldsNull` says whether its getter returns null on a fresh instance. */
  datatype PropertyDesc = PropertyDesc(name: string, propertyType: TypeDesc, canWrite: bool, yieldsNull: bool)

  /** A public instance field. */
  datatype FieldDesc = FieldDesc(name: string, fieldType: TypeDesc)

  /** `typeof(object)`: the root of every class's base chain. */
  const ObjectType: TypeDesc :=
    TypeDesc("Object", "System.Object", "mscorlib", Class, false, false, None, [], None,
             [], [], [Ctor(true, false, 0)], [], [])

  /** `typeof(ValueType)`: the base of every struct and enum. */
  const ValueType: TypeDesc :=
    TypeDesc("ValueType", "System.ValueType", "mscorlib", Class, true, false, None, [], Some(ObjectType),
             [], [], [Ctor(false, false, 0)], [], [])

  /** `typeof(string)`. */
  const StringType: TypeDesc :=
    TypeDesc("String", "System.String", "mscorlib", Class, false, false, None, [], Some(ObjectType),
             [], [], [], [], [])

  /** `typeof(Nullable<>)`. */
  const NullableDefinition: TypeDesc :=
    TypeDesc("Nullable`1", "System.Nullable`1", "mscorlib", Struct, false, true, None, [], Some(ValueType),
             [], [], [], [], [])

  /** `Type.IsGenericType`. */
  predicate IsGenericType(t: TypeDesc) {
    t.isGenericTypeDefinition || t.genericDefinition.Some?
  }

  /** `t.IsGenericType ? t.GetGenericTypeDefinition() : t`. */
  function RawType(t: TypeDesc): (r: TypeDesc)
    ensures !IsGenericType(t) ==> r == t
    ensures t.isGenericTypeDefinition ==> r == t
  {
    if t.isGenericTypeDefinition then t
    else if t.genericDefinition.Some? then t.genericDefinition.value
    else t
  }

  /** `Type.IsDefined(attribute, false)` for an attribute of the given kind. */
  predicate HasServiceBehavior(t: TypeDesc) {
    exists i :: 0 <= i < |t.attributes| && t.attributes[i].ServiceBehaviorAttribute?
  }

  predicate HasServiceContract(t: TypeDesc) {
    exists i :: 0 <= i < |t.attributes| && t.attributes[i] == ServiceContractAttribute
  }

  /**
   * `target.IsAssignableFrom(source)`: the same type, an implemented
   * interface, a type on the base chain, or `Nullable<source>` (a boxed
   * value type converts to its nullable form).
   */
  predicate IsAssignableFrom(target: TypeDesc, source: TypeDesc)
    decreases source
  {
    target == source
    || target in source.interfaces
    || IsNullableOf(target, source)
    || (source.baseType.Some? && IsAssignableFrom(target, source.baseType.value))
  }

  /** `target` is `Nullable<source>`, the only lifting `IsAssignableFrom` allows for a value type. */
  predicate IsNullableOf(target: TypeDesc, source: TypeDesc) {
    target.genericDefinition == Some(NullableDefinition) && target.typeArguments == [source] && source.kind != Class && source.kind != Interface
  }

  /** A run-time object: an identity and the type `GetType()` reports. */
  datatype Obj = Obj(id: nat, runtimeType: TypeDesc)
}
