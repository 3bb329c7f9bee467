/**
 * `UnityRegistryBase<T>`: a contract-to-instance table (a Unity container)
 * rebuilt from an ordered list of configured mappings.  Each mapping names
 * a contract type and optionally a concrete type or a mock type; a concrete
 * type wins over a mock type, and with neither the default instance is
 * used.  A DEBUG build skips a mapping that fails; a release build stops at
 * the first failure.  Registering a contract again replaces its binding.
 *
 * Type names are resolved through `types`, the model of `Type.GetType`.
 * Objects this code creates get fresh identities from `nextId`.
 */
module UnityRegistryBase {
  import opened Wrappers
  import opened Types
  import TypeExtensions

  /** A `UnityMappingElement`: the contract type's name and the optional concrete and mock type names. */
  datatype Mapping = Mapping(contractType: string, concreteType: Option<string>, mockType: Option<string>)

  /** `string.IsNullOrEmpty`. */
  predicate IsNullOrEmpty(s: Option<string>) {
    s.None? || s.value == ""
  }

  /** The bindings of a container: at most one instance (possibly null) per contract type. */
  type Table = map<TypeDesc, Option<Obj>>

  /** The exceptions the registry raises or lets through. */
  datatype RegistryError =
    | ArgumentNullException(paramName: string, nullMessage: Option<string>)
    | ArgumentException(message: string, paramName: string)
    | Exception(message: string)
    | MissingMethodException(typeName: string)
    | NotImplementedException(message: string)
    | NullReferenceException
    | TargetException
    | ResolutionFailedException(typeName: string)
    | InvalidCastException

  const ContractNullMessage := "Type of service contract to load cannot be null"
  const DefaultNotImplementedMessage := "CreateDefaultInstance - must be implemented in sub class only"
  const MockObjectPropertyName := "MockObject"

  function ConcreteNotFoundMessage(concrete: string): string {
    "Your concrete '" + concrete + "' type cannot be established"
  }

  function ConcreteNotImplementingMessage(concrete: string, contract: string): string {
    "Your concrete object instance '" + concrete + "' does not implement contract '" + contract + "'."
  }

  function ConcreteNullMessage(concrete: string): string {
    "Your concrete object instance cannot be initialized '" + concrete + "'."
  }

  function MockNotFoundMessage(mock: string): string {
    "Your mock '" + mock + "' type cannot be esstablished"
  }

  function MockNotMoqMessage(mock: string): string {
    "Your mock object instance '" + mock + "' does not implement WcfAbstraction.TestTools.MoqObject abstract class."
  }

  function MockNullMessage(mock: string): string {
    "Your mock object instance cannot be initialized '" + mock + "'."
  }

  function MockNoPropertyMessage(mock: string, contract: string): string {
    "Your mock '" + mock + "' does not contain a 'Service' property returning your contract type '" + contract + "."
  }

  function MockNullServiceMessage(mock: string): string {
    "Your mock '" + mock + "' 'Service' property returns a null object reference"
  }

  /** `typeof(MoqObject<>)`. */
  const MoqObjectDefinition: TypeDesc :=
    TypeDesc("MoqObject`1", "WcfAbstraction.TestTools.MoqObject`1", "WcfAbstraction", Class, false, true, None, [],
             Some(ObjectType), [], [], [Ctor(true, false, 0)], [], [])

  /**
   * Whether `Activator.CreateInstance(t, nonPublic)` produces an object.
   * A value type always can.  A class must be concrete and declare a
   * parameterless instance constructor, public unless `nonPublic`.
   * Interfaces and generic type definitions never can.
   */
  predicate CanCreateInstance(t: TypeDesc, nonPublic: bool) {
    !t.isGenericTypeDefinition
    && match t.kind
       case Interface => false
       case Struct => true
       case Enum => true
       case Class =>
         !t.isAbstract
         && exists i :: 0 <= i < |t.constructors| && !t.constructors[i].isStatic
                        && t.constructors[i].parameterCount == 0 && (nonPublic || t.constructors[i].isPublic)
  }

  /** `Activator.CreateInstance` of a `Nullable<T>` yields null. */
  predicate CreatesNull(t: TypeDesc) {
    t.genericDefinition == Some(NullableDefinition)
  }

  /** `Activator.CreateInstance(t, nonPublic)`: a fresh object with identity `id`, null, or the exception. */
  function CreateInstance(t: Option<TypeDesc>, nonPublic: bool, id: nat): (r: Result<Option<Obj>, RegistryError>)
    ensures t.None? ==> r == Err(ArgumentNullException("type", None))
    ensures r.Ok? <==> t.Some? && CanCreateInstance(t.value, nonPublic)
    ensures r.Ok? ==> (r.value.None? <==> CreatesNull(t.value))
    ensures r.Ok? && r.value.Some? ==> r.value.value == Obj(id, t.value)
  {
    if t.None? then Err(ArgumentNullException("type", None))
    else if !CanCreateInstance(t.value, nonPublic) then Err(MissingMethodException(t.value.fullName))
    else if CreatesNull(t.value) then Ok(None)
    else Ok(Some(Obj(id, t.value)))
  }

  /** `Type.GetProperty(name, returnType)`: the first public property with that exact name and type. */
  function GetPropertyOfType(properties: seq<PropertyDesc>, name: string, returnType: TypeDesc): (r: Option<PropertyDesc>)
    ensures r.Some? ==> r.value in properties && r.value.name == name && r.value.propertyType == returnType
    ensures r.None? ==> forall i :: 0 <= i < |properties| ==>
      !(properties[i].name == name && properties[i].propertyType == returnType)
    decreases |properties|
  {
    if |properties| == 0 then None
    else if properties[0].name == name && properties[0].propertyType == returnType then Some(properties[0])
    else
      var r := GetPropertyOfType(properties[1..], name, returnType);
      assert forall i :: 1 <= i < |properties| ==> properties[i] == properties[1..][i - 1];
      r
  }

  /** What an accepted mapping binds: an instance it produced, or whatever `CreateDefaultInstance` gives. */
  datatype Entry = Instance(value: Option<Obj>) | DefaultInstance

  /**
   * The per-mapping resolution shared by `ConfigureUnityContainer` and
   * `RegisterMapping`: the contract type and what to bind to it, or the
   * exception the mapping raises.  `checkCreated` selects the base class's
   * extra checks that a created concrete or mock instance is not null;
   * without them a null concrete instance is bound as null and reading the
   * mock's property from a null instance fails.  A new object, if any, gets
   * identity `id`.
   */
  function ResolveEntry(types: map<string, TypeDesc>, m: Mapping, checkCreated: bool, id: nat)
    : (r: Result<(TypeDesc, Entry), RegistryError>)
    ensures m.contractType !in types ==> r == Err(ArgumentNullException(ContractNullMessage, None))
    ensures r.Ok? ==> m.contractType in types && r.value.0 == types[m.contractType]
    ensures r.Ok? ==> (r.value.1.DefaultInstance? <==> IsNullOrEmpty(m.concreteType) && IsNullOrEmpty(m.mockType))
  {
    if m.contractType !in types then Err(ArgumentNullException(ContractNullMessage, None))
    else
      var contract := types[m.contractType];
      if !IsNullOrEmpty(m.concreteType) then
        var name := m.concreteType.value;
        if name !in types then Err(Exception(ConcreteNotFoundMessage(name)))
        else if contract !in types[name].interfaces then Err(Exception(ConcreteNotImplementingMessage(name, m.contractType)))
        else
          var created := CreateInstance(Some(types[name]), true, id);
          if created.Err? then Err(created.error)
          else if checkCreated && created.value.None? then Err(Exception(ConcreteNullMessage(name)))
          else Ok((contract, Instance(created.value)))
      else if !IsNullOrEmpty(m.mockType) then
        var name := m.mockType.value;
        if name !in types then Err(Exception(MockNotFoundMessage(name)))
        else
          var mock := types[name];
          var isMoq := TypeExtensions.RawGenericSearch(Some(mock), MoqObjectDefinition);
          if isMoq.Err? then Err(NullReferenceException)
          else if !isMoq.value then Err(Exception(MockNotMoqMessage(name)))
          else
            var created := CreateInstance(Some(mock), false, id);
            if created.Err? then Err(created.error)
            else if checkCreated && created.value.None? then Err(Exception(MockNullMessage(name)))
            else
              var property := GetPropertyOfType(mock.properties, MockObjectPropertyName, contract);
              if property.None? then Err(Exception(MockNoPropertyMessage(name, m.contractType)))
              else if created.value.None? then Err(TargetException)
              else if property.value.yieldsNull then Err(Exception(MockNullServiceMessage(name)))
              else Ok((contract, Instance(Some(Obj(id, contract)))))
      else Ok((contract, DefaultInstance))
  }

  /**
   * A concrete type takes precedence over a mock type.  The entry is accepted
   * exactly when the concrete type resolves, lists the contract among its
   * interfaces and can be instantiated (and, with `checkCreated`, does not
   * instantiate to null); it binds the new instance.
   */
  lemma ConcreteEntryRules(types: map<string, TypeDesc>, m: Mapping, checkCreated: bool, id: nat)
    requires !IsNullOrEmpty(m.concreteType) && m.contractType in types
    ensures var r := ResolveEntry(types, m, checkCreated, id);
      var contract := types[m.contractType];
      var name := m.concreteType.value;
      (r.Ok? <==> name in types && contract in types[name].interfaces && CanCreateInstance(types[name], true)
                  && (checkCreated ==> !CreatesNull(types[name])))
      && (name !in types ==> r == Err(Exception(ConcreteNotFoundMessage(name))))
      && (name in types && contract !in types[name].interfaces ==>
            r == Err(Exception(ConcreteNotImplementingMessage(name, m.contractType))))
      && (r.Ok? ==> r.value.1 == Instance(if CreatesNull(types[name]) then None else Some(Obj(id, types[name]))))
  {
  }

  /**
   * With no concrete type, a mock type is used.  The entry is accepted
   * exactly when the mock type resolves, derives from `MoqObject<>`, can be
   * instantiated to an object, and has a `MockObject` property of the
   * contract type whose value is not null; it binds that value.
   */
  lemma MockEntryRules(types: map<string, TypeDesc>, m: Mapping, checkCreated: bool, id: nat)
    requires IsNullOrEmpty(m.concreteType) && !IsNullOrEmpty(m.mockType) && m.contractType in types
    ensures var r := ResolveEntry(types, m, checkCreated, id);
      var contract := types[m.contractType];
      var name := m.mockType.value;
      (r.Ok? <==> name in types && TypeExtensions.RawGenericSearch(Some(types[name]), MoqObjectDefinition) == Ok(true)
                  && CanCreateInstance(types[name], false) && !CreatesNull(types[name])
                  && GetPropertyOfType(types[name].properties, MockObjectPropertyName, contract).Some?
                  && !GetPropertyOfType(types[name].properties, MockObjectPropertyName, contract).value.yieldsNull)
      && (name !in types ==> r == Err(Exception(MockNotFoundMessage(name))))
      && (name in types && TypeExtensions.RawGenericSearch(Some(types[name]), MoqObjectDefinition) == Ok(false) ==>
            r == Err(Exception(MockNotMoqMessage(name))))
      && (r.Ok? ==> r.value.1 == Instance(Some(Obj(id, contract))))
  {
  }

  /** `_container.RegisterInstance(contractType, instance)` on a container that may not exist yet. */
  function Register(container: Option<Table>, contractType: TypeDesc, instance: Option<Obj>): (t: Table)
    ensures contractType in t && t[contractType] == instance
    ensures forall c :: c != contractType ==> (c in t <==> container.Some? && c in container.value)
    ensures forall c :: c != contractType && c in t ==> t[c] == container.value[c]
  {
    container.GetOr(map[])[contractType := instance]
  }

  /** The base class's outcome for one mapping: its contract and instance, the default branch failing. */
  function BaseRegistration(types: map<string, TypeDesc>, m: Mapping, id: nat): Result<(TypeDesc, Option<Obj>), RegistryError>
  {
    var r := ResolveEntry(types, m, true, id);
    if r.Err? then Err(r.error)
    else if r.value.1.DefaultInstance? then Err(NotImplementedException(DefaultNotImplementedMessage))
    else Ok((r.value.0, r.value.1.value))
  }

  /** Whether a mapping registers in the base class; it does not depend on the identity handed out. */
  predicate Accepted(types: map<string, TypeDesc>, m: Mapping) {
    BaseRegistration(types, m, 0).Ok?
  }

  lemma AcceptedAtAnyId(types: map<string, TypeDesc>, m: Mapping, id: nat)
    ensures BaseRegistration(types, m, id).Ok? <==> Accepted(types, m)
    ensures BaseRegistration(types, m, id).Ok? ==> BaseRegistration(types, m, id).value.0 == types[m.contractType]
  {
  }

  /** A container being rebuilt: its table, the next identity, and the exception that stopped it. */
  datatype Build = Build(table: Table, nextId: nat, error: Option<RegistryError>)

  /** One pass of the loop: a failing mapping is skipped in a DEBUG build and stops a release build. */
  function Step(types: map<string, TypeDesc>, debug: bool, b: Build, m: Mapping): Build {
    if b.error.Some? then b
    else
      var r := BaseRegistration(types, m, b.nextId);
      if r.Ok? then Build(b.table[r.value.0 := r.value.1], b.nextId + 1, None)
      else if debug then b
      else Build(b.table, b.nextId, Some(r.error))
  }

  /** The loop over `mappings` in order, from `start`. */
  function RebuildFrom(types: map<string, TypeDesc>, debug: bool, start: Build, mappings: seq<Mapping>): Build
    decreases |mappings|
  {
    if |mappings| == 0 then start
    else Step(types, debug, RebuildFrom(types, debug, start, mappings[..|mappings| - 1]), mappings[|mappings| - 1])
  }

  /** `ConfigureUnityContainer`: the loop from a fresh, empty container. */
  function Rebuild(types: map<string, TypeDesc>, debug: bool, mappings: seq<Mapping>, nextId: nat): Build {
    RebuildFrom(types, debug, Build(map[], nextId, None), mappings)
  }

  /** Once a mapping has failed in a release build, later mappings change nothing. */
  lemma {:induction false} ErrorPersists(types: map<string, TypeDesc>, debug: bool, start: Build, mappings: seq<Mapping>, k: nat)
    requires k <= |mappings| && RebuildFrom(types, debug, start, mappings[..k]).error.Some?
    ensures RebuildFrom(types, debug, start, mappings) == RebuildFrom(types, debug, start, mappings[..k])
    decreases |mappings| - k
  {
    if k < |mappings| {
      var prefix := mappings[..|mappings| - 1];
      assert prefix[..k] == mappings[..k];
      ErrorPersists(types, debug, start, prefix, k);
    } else {
      assert mappings[..k] == mappings;
    }
  }

  /** A DEBUG build never fails. */
  lemma {:induction false} DebugNeverFails(types: map<string, TypeDesc>, start: Build, mappings: seq<Mapping>)
    requires start.error.None?
    ensures RebuildFrom(types, true, start, mappings).error.None?
    decreases |mappings|
  {
    if |mappings| > 0 {
      DebugNeverFails(types, start, mappings[..|mappings| - 1]);
    }
  }

  /** The mappings the base class accepts, in order. */
  function AcceptedMappings(types: map<string, TypeDesc>, mappings: seq<Mapping>): (r: seq<Mapping>)
    ensures |r| <= |mappings|
    ensures forall i :: 0 <= i < |r| ==> Accepted(types, r[i]) && r[i] in mappings
    decreases |mappings|
  {
    if |mappings| == 0 then []
    else
      var last := mappings[|mappings| - 1];
      var prefix := AcceptedMappings(types, mappings[..|mappings| - 1]);
      if Accepted(types, last) then prefix + [last] else prefix
  }

  /** A DEBUG build registers exactly what a release build registers once the failing mappings are removed. */
  lemma {:induction false} DebugSkipsFailures(types: map<string, TypeDesc>, start: Build, mappings: seq<Mapping>)
    requires start.error.None?
    ensures RebuildFrom(types, true, start, mappings) == RebuildFrom(types, false, start, AcceptedMappings(types, mappings))
    decreases |mappings|
  {
    if |mappings| > 0 {
      var prefix := mappings[..|mappings| - 1];
      var last := mappings[|mappings| - 1];
      var kept := AcceptedMappings(types, prefix);
      DebugSkipsFailures(types, start, prefix);
      DebugNeverFails(types, start, prefix);
      var b := RebuildFrom(types, true, start, prefix);
      AcceptedAtAnyId(types, last, b.nextId);
      if Accepted(types, last) {
        assert (kept + [last])[..|kept + [last]| - 1] == kept;
      }
    }
  }

  /**
   * A release build stops at its first failing mapping `k`: every earlier
   * mapping was registered, the table is what they built, and the error is
   * mapping `k`'s own.
   */
  lemma ReleaseStopsAtFirstFailure(types: map<string, TypeDesc>, start: Build, mappings: seq<Mapping>, k: nat)
    requires start.error.None?
    requires k < |mappings| && !Accepted(types, mappings[k])
    requires forall i :: 0 <= i < k ==> Accepted(types, mappings[i])
    ensures var before := RebuildFrom(types, false, start, mappings[..k]);
      before.error.None?
      && BaseRegistration(types, mappings[k], before.nextId).Err?
      && RebuildFrom(types, false, start, mappings)
         == Build(before.table, before.nextId, Some(BaseRegistration(types, mappings[k], before.nextId).error))
  {
    AllAcceptedSucceed(types, start, mappings[..k]);
    var before := RebuildFrom(types, false, start, mappings[..k]);
    AcceptedAtAnyId(types, mappings[k], before.nextId);
    assert mappings[..k + 1][..k] == mappings[..k];
    ErrorPersists(types, false, start, mappings, k + 1);
  }

  /** When every mapping is accepted a release build does not fail. */
  lemma {:induction false} AllAcceptedSucceed(types: map<string, TypeDesc>, start: Build, mappings: seq<Mapping>)
    requires start.error.None?
    requires forall i :: 0 <= i < |mappings| ==> Accepted(types, mappings[i])
    ensures RebuildFrom(types, false, start, mappings).error.None?
    ensures RebuildFrom(types, false, start, mappings).nextId == start.nextId + |mappings|
    decreases |mappings|
  {
    if |mappings| > 0 {
      var prefix := mappings[..|mappings| - 1];
      AllAcceptedSucceed(types, start, prefix);
      AcceptedAtAnyId(types, mappings[|mappings| - 1], RebuildFrom(types, false, start, prefix).nextId);
    }
  }

  /** The number of accepted mappings before position `i`. */
  function AcceptedBefore(types: map<string, TypeDesc>, mappings: seq<Mapping>, i: nat): nat
    requires i <= |mappings|
  {
    |AcceptedMappings(types, mappings[..i])|
  }

  /** One DEBUG pass binds an accepted mapping's contract to its instance and leaves the table alone otherwise. */
  lemma DebugStep(types: map<string, TypeDesc>, b: Build, m: Mapping)
    requires b.error.None?
    ensures var s := Step(types, true, b, m);
      s.error.None?
      && (Accepted(types, m) ==>
            s.table == b.table[types[m.contractType] := BaseRegistration(types, m, b.nextId).value.1] && s.nextId == b.nextId + 1)
      && (!Accepted(types, m) ==> s == b)
  {
    AcceptedAtAnyId(types, m, b.nextId);
  }

  /** After a DEBUG build from an empty table, a contract is bound exactly when some accepted mapping names it. */
  lemma {:induction false} BoundContracts(types: map<string, TypeDesc>, mappings: seq<Mapping>, nextId: nat, c: TypeDesc)
    ensures c in Rebuild(types, true, mappings, nextId).table
      <==> exists i :: 0 <= i < |mappings| && Accepted(types, mappings[i]) && types[mappings[i].contractType] == c
    decreases |mappings|
  {
    if |mappings| > 0 {
      var n := |mappings|;
      var prefix := mappings[..n - 1];
      BoundContracts(types, prefix, nextId, c);
      DebugNeverFails(types, Build(map[], nextId, None), prefix);
      DebugStep(types, Rebuild(types, true, prefix, nextId), mappings[n - 1]);
      assert forall i :: 0 <= i < n - 1 ==> prefix[i] == mappings[i];
    }
  }

  /**
   * Last registration wins.  After a DEBUG build from an empty table, a
   * bound contract holds the instance made by the last accepted mapping that
   * names it; that instance's identity is `nextId` plus the number of
   * accepted mappings before it.
   */
  lemma {:induction false} LastRegistrationWins(types: map<string, TypeDesc>, mappings: seq<Mapping>, nextId: nat, c: TypeDesc)
    requires c in Rebuild(types, true, mappings, nextId).table
    ensures exists i: nat :: WinsAt(types, mappings, nextId, Rebuild(types, true, mappings, nextId).table, c, i)
    decreases |mappings|
  {
    var n := |mappings|;
    var prefix := mappings[..n - 1];
    var last := mappings[n - 1];
    var before := Rebuild(types, true, prefix, nextId);
    var after := Rebuild(types, true, mappings, nextId);
    DebugNeverFails(types, Build(map[], nextId, None), prefix);
    DebugStep(types, before, last);
    IdentitiesCount(types, prefix, nextId);
    assert mappings[..n - 1] == prefix;
    if Accepted(types, last) && types[last.contractType] == c {
      assert WinsAt(types, mappings, nextId, after.table, c, n - 1);
    } else {
      LastRegistrationWins(types, prefix, nextId, c);
      var i :| WinsAt(types, prefix, nextId, before.table, c, i);
      WinnerSurvivesLaterMapping(types, mappings, nextId, before.table, after.table, c, i);
    }
  }

  /** Mapping `i` is the last accepted mapping naming `c`, and `c` is bound to its instance in `table`. */
  ghost predicate WinsAt(types: map<string, TypeDesc>, mappings: seq<Mapping>, nextId: nat, table: Table, c: TypeDesc, i: nat) {
    i < |mappings| && Accepted(types, mappings[i]) && types[mappings[i].contractType] == c
    && c in table && table[c] == BaseRegistration(types, mappings[i], nextId + AcceptedBefore(types, mappings, i)).value.1
    && forall j :: i < j < |mappings| && Accepted(types, mappings[j]) ==> types[mappings[j].contractType] != c
  }

  /** A winner among all but the last mapping still wins when the last mapping leaves `c` alone. */
  lemma WinnerSurvivesLaterMapping(types: map<string, TypeDesc>, mappings: seq<Mapping>, nextId: nat,
                                   before: Table, after: Table, c: TypeDesc, i: nat)
    requires |mappings| > 0
    requires WinsAt(types, mappings[..|mappings| - 1], nextId, before, c, i)
    requires !(Accepted(types, mappings[|mappings| - 1]) && types[mappings[|mappings| - 1].contractType] == c)
    requires c in after && after[c] == before[c]
    ensures WinsAt(types, mappings, nextId, after, c, i)
  {
    var prefix := mappings[..|mappings| - 1];
    assert prefix[..i] == mappings[..i];
    assert forall j :: i < j < |prefix| ==> prefix[j] == mappings[j];
  }

  /** Each accepted mapping uses one identity. */
  lemma {:induction false} IdentitiesCount(types: map<string, TypeDesc>, mappings: seq<Mapping>, nextId: nat)
    ensures Rebuild(types, true, mappings, nextId).nextId == nextId + |AcceptedMappings(types, mappings)|
    decreases |mappings|
  {
    if |mappings| > 0 {
      var prefix := mappings[..|mappings| - 1];
      IdentitiesCount(types, prefix, nextId);
      DebugNeverFails(types, Build(map[], nextId, None), prefix);
      AcceptedAtAnyId(types, mappings[|mappings| - 1], Rebuild(types, true, prefix, nextId).nextId);
    }
  }

  /**
   * `GetService<S>()`: the instance bound to `S`, cast to `S`.  With no
   * container the call fails on null, an unbound contract cannot be
   * resolved, and a bound instance of another type fails the cast.
   */
  function GetService(container: Option<Table>, contractType: TypeDesc): (r: Result<Option<Obj>, RegistryError>)
    ensures container.None? ==> r == Err(NullReferenceException)
    ensures container.Some? && contractType !in container.value ==> r == Err(ResolutionFailedException(contractType.fullName))
    ensures r.Ok? <==> container.Some? && contractType in container.value
                       && (container.value[contractType].Some? ==>
                             IsAssignableFrom(contractType, container.value[contractType].value.runtimeType))
    ensures r.Ok? ==> r.value == container.value[contractType]
  {
    if container.None? then Err(NullReferenceException)
    else if contractType !in container.value then Err(ResolutionFailedException(contractType.fullName))
    else
      var instance := container.value[contractType];
      if instance.Some? && !IsAssignableFrom(contractType, instance.value.runtimeType) then Err(InvalidCastException)
      else Ok(instance)
  }

  /** Binding a contract and then asking for it returns what was bound, when its type fits the contract. */
  lemma RegisteredServiceIsReturned(container: Option<Table>, contractType: TypeDesc, instance: Obj)
    requires IsAssignableFrom(contractType, instance.runtimeType)
    ensures GetService(Some(Register(container, contractType, Some(instance))), contractType) == Ok(Some(instance))
  {
  }

  /** `UnityRegistryBase<T>`'s static state: the container and the identities handed out so far. */
  class Registry {
    /** The static `_container`; `None` until it is first created. */
    var container: Option<Table>
    var nextId: nat
    /** Whether this is a DEBUG build. */
    const debug: bool

    /** The state before any registration. */
    constructor(debug: bool)
      ensures container.None? && nextId == 0 && this.debug == debug
    {
      container := None;
      nextId := 0;
      this.debug := debug;
    }

    /** `RegisterServiceInstance`: creates the container if there is none, then binds, replacing any earlier binding. */
    method RegisterServiceInstance(contractType: TypeDesc, instance: Option<Obj>)
      modifies this
      ensures container == Some(Register(old(container), contractType, instance))
      ensures nextId == old(nextId)
    {
      if container.None? {
        container := Some(map[]);
      }
      container := Some(container.value[contractType := instance]);
    }

    /** `RegisterService`: a null contract type is rejected; otherwise a new instance of the concrete type is bound. */
    method RegisterService(contractType: Option<TypeDesc>, concreteType: Option<TypeDesc>) returns (r: Result<(), RegistryError>)
      modifies this
      ensures contractType.None? ==>
        r == Err(ArgumentNullException(ContractNullMessage, Some("instance"))) && container == old(container) && nextId == old(nextId)
      ensures contractType.Some? ==>
        var created := CreateInstance(concreteType, true, old(nextId));
        (created.Err? ==> r == Err(created.error) && container == old(container) && nextId == old(nextId))
        && (created.Ok? ==> r == Ok(()) && container == Some(Register(old(container), contractType.value, created.value))
                            && nextId == old(nextId) + 1)
    {
      if contractType.None? {
        return Err(ArgumentNullException(ContractNullMessage, Some("instance")));
      }
      var created := CreateInstance(concreteType, true, nextId);
      if created.Err? {
        return Err(created.error);
      }
      nextId := nextId + 1;
      RegisterServiceInstance(contractType.value, created.value);
      return Ok(());
    }

    /** The base `CreateDefaultInstance` always fails: only a derived registry supplies defaults. */
    method CreateDefaultInstance(contractType: TypeDesc) returns (r: Result<Option<Obj>, RegistryError>)
      ensures r.Err? && r.error.NotImplementedException?
      ensures r.error.message == DefaultNotImplementedMessage
    {
      return Err(NotImplementedException(DefaultNotImplementedMessage));
    }

    /**
     * `ConfigureUnityContainer`: a fresh container, then every mapping in
     * order.  A release build stops at the first failing mapping, keeping
     * what earlier mappings registered.
     */
    method ConfigureUnityContainer(types: map<string, TypeDesc>, mappings: seq<Mapping>) returns (r: Result<(), RegistryError>)
      modifies this
      ensures var b := Rebuild(types, debug, mappings, old(nextId));
        container == Some(b.table) && nextId == b.nextId
        && (r.Ok? <==> b.error.None?) && (r.Err? ==> b.error == Some(r.error))
    {
      container := Some(map[]);
      var start := Build(map[], nextId, None);
      var i := 0;
      while i < |mappings|
        invariant 0 <= i <= |mappings| && container.Some?
        invariant RebuildFrom(types, debug, start, mappings[..i]) == Build(container.value, nextId, None)
      {
        var m := mappings[i];
        assert mappings[..i + 1][..i] == mappings[..i];
        var entry := ResolveEntry(types, m, true, nextId);
        if entry.Ok? && entry.value.1.Instance? {
          container := Some(container.value[entry.value.0 := entry.value.1.value]);
          nextId := nextId + 1;
        } else {
          var failure;
          if entry.Err? {
            failure := entry.error;
          } else {
            var d := CreateDefaultInstance(entry.value.0);
            failure := d.error;
          }
          if !debug {
            ErrorPersists(types, debug, start, mappings, i + 1);
            return Err(failure);
          }
        }
        i := i + 1;
      }
      assert mappings[..i] == mappings;
      return Ok(());
    }

    /** `Reload`: rebuilds the container from the configured mappings. */
    method Reload(types: map<string, TypeDesc>, mappings: seq<Mapping>) returns (r: Result<(), RegistryError>)
      modifies this
      ensures var b := Rebuild(types, debug, mappings, old(nextId));
        container == Some(b.table) && nextId == b.nextId
        && (r.Ok? <==> b.error.None?) && (r.Err? ==> b.error == Some(r.error))
    {
      r := ConfigureUnityContainer(types, mappings);
    }
  }
}
