/**
 * The reflection helpers: casting an object to a type, finding an
 * implemented generic interface, mapping a dictionary of named values onto
 * a type's writable members, naming a type, and walking a base chain for a
 * generic definition.
 */
module TypeExtensions {
  import opened Wrappers
  import opened Types

  datatype ReflectionError =
    | ArgumentException(message: string, paramName: Option<string>)
    | NullReferenceException
    /** `Enum.Parse` or `Convert.ChangeType` threw while converting the value of `key`. */
    | ConversionFailed(key: string)
    /** A lookup by name matched more than one member. */
    | AmbiguousMatchException

  // ----- TryCast / TryPerform -----

  /**
   * `TryCast<T>`: succeeds exactly when the object is not null and `T` is
   * assignable from its run-time type; the out value is then the object
   * itself, and otherwise `default(T)` (here `None`).
   */
  function TryCast(castObject: Option<Obj>, target: TypeDesc): (r: (bool, Option<Obj>))
    ensures r.0 <==> castObject.Some? && IsAssignableFrom(target, castObject.value.runtimeType)
    ensures r.1 == if r.0 then castObject else None
  {
    if castObject.Some? && IsAssignableFrom(target, castObject.value.runtimeType) then (true, castObject)
    else (false, None)
  }

  /** A boxed value casts to `Nullable` of its own type (`TryCast<int?>` of a boxed 5), but not to `Nullable` of another. */
  lemma BoxedValueCastsToNullable(o: Obj, target: TypeDesc, other: TypeDesc)
    requires o.runtimeType.kind == Struct && !IsGenericType(o.runtimeType)
    requires o.runtimeType.baseType == Some(ValueType) && o.runtimeType.interfaces == []
    requires target.genericDefinition == Some(NullableDefinition) && target.typeArguments == [o.runtimeType]
    requires other.genericDefinition == Some(NullableDefinition) && other.typeArguments != [o.runtimeType]
    ensures TryCast(Some(o), target) == (true, Some(o))
    ensures TryCast(Some(o), other) == (false, None)
  {
    assert !IsAssignableFrom(other, ObjectType);
    assert !IsAssignableFrom(other, ValueType);
  }

  /** An object can always be cast to its own type, to its interfaces and to its base types. */
  lemma {:induction false} CastToSupertypeSucceeds(o: Obj, target: TypeDesc, t: TypeDesc)
    requires o.runtimeType == t
    requires target == t || target in t.interfaces || (t.baseType.Some? && target == t.baseType.value)
    ensures TryCast(Some(o), target) == (true, Some(o))
  {
    if target != t && target !in t.interfaces {
      assert IsAssignableFrom(target, t.baseType.value);
    }
  }

  /** A null object never casts. */
  lemma CastOfNullFails(target: TypeDesc)
    ensures TryCast(None, target) == (false, None)
  {
  }

  /**
   * `TryPerform<T>`: runs `action` on the cast object exactly when the cast
   * succeeds.  The action's effect is recorded as the sequence of values it
   * produced.
   */
  function TryPerform<E>(castObject: Option<Obj>, target: TypeDesc, action: Obj -> E): (r: (bool, seq<E>))
    ensures r.0 == TryCast(castObject, target).0
    ensures r.0 ==> r.1 == [action(castObject.value)]
    ensures !r.0 ==> r.1 == []
  {
    var (ok, value) := TryCast(castObject, target);
    if ok then (true, [action(value.value)]) else (false, [])
  }

  // ----- GetGenericInterface -----

  const GenericDefinitionMessage := "The interface type must be a generic type definition."

  /** The first of `interfaces` that is a constructed form of `definition`. */
  function FirstConstructedFrom(interfaces: seq<TypeDesc>, definition: TypeDesc): (r: Option<TypeDesc>)
    ensures r.Some? ==> exists i :: 0 <= i < |interfaces| && interfaces[i] == r.value
    ensures r.Some? ==> IsGenericType(r.value) && RawType(r.value) == definition
    ensures r.None? ==> forall i :: 0 <= i < |interfaces| ==> !(IsGenericType(interfaces[i]) && RawType(interfaces[i]) == definition)
    decreases |interfaces|
  {
    if |interfaces| == 0 then None
    else if IsGenericType(interfaces[0]) && RawType(interfaces[0]) == definition then Some(interfaces[0])
    else
      var r := FirstConstructedFrom(interfaces[1..], definition);
      assert forall i :: 1 <= i < |interfaces| ==> interfaces[i] == interfaces[1..][i - 1];
      r
  }

  /**
   * `GetGenericInterface`: rejects an `interfaceType` that is not a generic
   * type definition; otherwise yields the first implemented interface whose
   * generic definition is `interfaceType`, or null.
   */
  function GetGenericInterface(t: TypeDesc, interfaceType: TypeDesc): (r: Result<Option<TypeDesc>, ReflectionError>)
    ensures !interfaceType.isGenericTypeDefinition
        <==> r == Err(ArgumentException(GenericDefinitionMessage, Some("interfaceType")))
    ensures r.Ok? ==> r.value == FirstConstructedFrom(t.interfaces, interfaceType)
  {
    if !interfaceType.isGenericTypeDefinition then
      Err(ArgumentException(GenericDefinitionMessage, Some("interfaceType")))
    else Ok(FirstConstructedFrom(t.interfaces, interfaceType))
  }

  /** The interface found is the first match: no earlier interface is constructed from the definition. */
  lemma {:induction false} GenericInterfaceIsFirst(interfaces: seq<TypeDesc>, definition: TypeDesc, k: nat)
    requires k < |interfaces|
    requires FirstConstructedFrom(interfaces, definition) == Some(interfaces[k])
    requires forall j :: 0 <= j < k ==> interfaces[j] != interfaces[k]
    ensures forall j :: 0 <= j < k ==> !(IsGenericType(interfaces[j]) && RawType(interfaces[j]) == definition)
    decreases |interfaces|
  {
    if k > 0 && !(IsGenericType(interfaces[0]) && RawType(interfaces[0]) == definition) {
      assert interfaces[1..][k - 1] == interfaces[k];
      GenericInterfaceIsFirst(interfaces[1..], definition, k - 1);
      forall j | 0 <= j < k
        ensures !(IsGenericType(interfaces[j]) && RawType(interfaces[j]) == definition)
      {
        if j > 0 {
          assert interfaces[j] == interfaces[1..][j - 1];
        }
      }
    }
  }

  // ----- MapProperties -----

  /** ASCII case folding, the part of `BindingFlags.IgnoreCase` the model captures. */
  function Lower(c: char): char {
    if 'A' <= c <= 'Z' then (c as int + 32) as char else c
  }

  predicate EqualsIgnoreCase(a: string, b: string) {
    |a| == |b| && forall i :: 0 <= i < |a| ==> Lower(a[i]) == Lower(b[i])
  }

  predicate NameMatches(name: string, key: string, ignoreCase: bool) {
    if ignoreCase then EqualsIgnoreCase(name, key) else name == key
  }

  /** How a lookup by name ended: no member, exactly one, or more than one. */
  datatype Lookup<M> = NotFound | Found(member: M) | Ambiguous

  /** The member at position `i` has a name matching `key`. */
  predicate MatchAt<M>(members: seq<M>, nameOf: M -> string, key: string, ignoreCase: bool, i: int) {
    0 <= i < |members| && NameMatches(nameOf(members[i]), key, ignoreCase)
  }

  /**
   * `Type.GetProperty(key, flags)` and `Type.GetField(key, flags)` over the
   * public instance members: null when no name matches, the member when
   * exactly one does, and `AmbiguousMatchException` when several do (with
   * `IgnoreCase`, properties `ID` and `Id` both match `"id"`).
   */
  function FindMember<M>(members: seq<M>, nameOf: M -> string, key: string, ignoreCase: bool): (r: Lookup<M>)
    ensures r.NotFound? <==> forall i :: !MatchAt(members, nameOf, key, ignoreCase, i)
    ensures r.Ambiguous? <==>
      exists i, j :: i < j && MatchAt(members, nameOf, key, ignoreCase, i) && MatchAt(members, nameOf, key, ignoreCase, j)
    ensures r.Found? ==>
      exists i :: MatchAt(members, nameOf, key, ignoreCase, i) && members[i] == r.member
        && forall j :: j != i ==> !MatchAt(members, nameOf, key, ignoreCase, j)
    decreases |members|
  {
    if |members| == 0 then NotFound
    else
      var rest := FindMember(members[1..], nameOf, key, ignoreCase);
      assert forall i :: 0 <= i ==> (MatchAt(members[1..], nameOf, key, ignoreCase, i) <==> MatchAt(members, nameOf, key, ignoreCase, i + 1));
      assert forall i :: i != 0 && MatchAt(members, nameOf, key, ignoreCase, i) ==> MatchAt(members[1..], nameOf, key, ignoreCase, i - 1);
      if !MatchAt(members, nameOf, key, ignoreCase, 0) then
        assert rest.Found? ==> (
          exists i :: MatchAt(members, nameOf, key, ignoreCase, i) && members[i] == rest.member
            && forall j :: j != i ==> !MatchAt(members, nameOf, key, ignoreCase, j)) by {
          if rest.Found? {
            var i :| MatchAt(members[1..], nameOf, key, ignoreCase, i) && members[1..][i] == rest.member
              && forall j :: j != i ==> !MatchAt(members[1..], nameOf, key, ignoreCase, j);
            assert MatchAt(members, nameOf, key, ignoreCase, i + 1);
            forall j | j != i + 1
              ensures !MatchAt(members, nameOf, key, ignoreCase, j)
            {
              if j != 0 {
                assert !MatchAt(members[1..], nameOf, key, ignoreCase, j - 1);
              }
            }
          }
        }
        rest
      else if rest.NotFound? then
        Found(members[0])
      else
        assert exists i :: MatchAt(members[1..], nameOf, key, ignoreCase, i);
        Ambiguous
  }

  function PropertyName(p: PropertyDesc): string {
    p.name
  }

  function FieldName(f: FieldDesc): string {
    f.name
  }

  /** The member a key was resolved to: the name it is stored under and its type. */
  datatype Member = Member(name: string, memberType: TypeDesc)

  predicate IsWritableProperty(t: TypeDesc, m: Member) {
    exists p :: p in t.properties && p.canWrite && p.name == m.name && p.propertyType == m.memberType
  }

  predicate IsField(t: TypeDesc, m: Member) {
    exists f :: f in t.fields && f.name == m.name && f.fieldType == m.memberType
  }

  /** Some writable property, or some field, has a name equal to `key` up to case. */
  predicate HasWritablePropertyLike(t: TypeDesc, key: string) {
    exists i :: 0 <= i < |t.properties| && t.properties[i].canWrite && EqualsIgnoreCase(t.properties[i].name, key)
  }

  predicate HasFieldLike(t: TypeDesc, key: string) {
    exists i :: 0 <= i < |t.fields| && EqualsIgnoreCase(t.fields[i].name, key)
  }

  /** No two properties, and no two fields, have names equal to `key` up to case. */
  predicate UnambiguousFor(t: TypeDesc, key: string) {
    FindMember(t.properties, PropertyName, key, true) != Ambiguous
    && FindMember(t.fields, FieldName, key, true) != Ambiguous
  }

  /** An exact-case lookup that yields no writable property. */
  predicate NoWritable(l: Lookup<PropertyDesc>) {
    l.NotFound? || (l.Found? && !l.member.canWrite)
  }

  lemma {:induction false} ExactMatchIsLooseMatch(name: string, key: string)
    requires name == key
    ensures EqualsIgnoreCase(name, key)
  {
  }

  /**
   * The member resolution of `MapProperties`: an exact writable property,
   * else an exact field, else a case-insensitive writable property, else a
   * case-insensitive field.  An exact match keeps the key as the name; a
   * case-insensitive one takes the member's own name.  A lookup that finds
   * several members throws `AmbiguousMatchException`.
   */
  function ResolveMember(t: TypeDesc, key: string): (r: Result<Option<Member>, ReflectionError>)
    ensures r.Ok? && r.value.Some? ==>
      (IsWritableProperty(t, r.value.value) || IsField(t, r.value.value)) && EqualsIgnoreCase(r.value.value.name, key)
  {
    var exact := FindMember(t.properties, PropertyName, key, false);
    var field := FindMember(t.fields, FieldName, key, false);
    var loose := FindMember(t.properties, PropertyName, key, true);
    var looseField := FindMember(t.fields, FieldName, key, true);
    if exact.Ambiguous? then Err(AmbiguousMatchException)
    else if exact.Found? && exact.member.canWrite then Ok(Some(Member(key, exact.member.propertyType)))
    else if field.Ambiguous? then Err(AmbiguousMatchException)
    else if field.Found? then Ok(Some(Member(key, field.member.fieldType)))
    else if loose.Ambiguous? then Err(AmbiguousMatchException)
    else if loose.Found? && loose.member.canWrite then Ok(Some(Member(loose.member.name, loose.member.propertyType)))
    else if looseField.Ambiguous? then Err(AmbiguousMatchException)
    else if looseField.Found? then Ok(Some(Member(looseField.member.name, looseField.member.fieldType)))
    else Ok(None)
  }

  /**
   * The four tiers, in order: an exact writable property wins, then an exact
   * field, then a case-insensitive writable property, then a
   * case-insensitive field; an exact match is stored under the key, a
   * case-insensitive one under the member's own name.
   */
  lemma ResolutionTiers(t: TypeDesc, key: string)
    ensures var exact := FindMember(t.properties, PropertyName, key, false);
      exact.Found? && exact.member.canWrite ==> ResolveMember(t, key) == Ok(Some(Member(key, exact.member.propertyType)))
    ensures var exact := FindMember(t.properties, PropertyName, key, false);
      var field := FindMember(t.fields, FieldName, key, false);
      NoWritable(exact) && field.Found? ==> ResolveMember(t, key) == Ok(Some(Member(key, field.member.fieldType)))
    ensures var exact := FindMember(t.properties, PropertyName, key, false);
      var field := FindMember(t.fields, FieldName, key, false);
      var loose := FindMember(t.properties, PropertyName, key, true);
      NoWritable(exact) && field.NotFound? && loose.Found? && loose.member.canWrite ==>
        ResolveMember(t, key) == Ok(Some(Member(loose.member.name, loose.member.propertyType)))
    ensures var exact := FindMember(t.properties, PropertyName, key, false);
      var field := FindMember(t.fields, FieldName, key, false);
      var loose := FindMember(t.properties, PropertyName, key, true);
      var looseField := FindMember(t.fields, FieldName, key, true);
      NoWritable(exact) && field.NotFound? && NoWritable(loose) && looseField.Found? ==>
        ResolveMember(t, key) == Ok(Some(Member(looseField.member.name, looseField.member.fieldType)))
  {
  }

  /**
   * Every exact match is a case-insensitive one, so an ambiguous exact
   * lookup makes the case-insensitive one ambiguous, and no case-insensitive
   * match means no exact one.
   */
  lemma {:induction false} LooseLookupCoversExact<M>(members: seq<M>, nameOf: M -> string, key: string)
    ensures FindMember(members, nameOf, key, false).Ambiguous? ==> FindMember(members, nameOf, key, true).Ambiguous?
    ensures FindMember(members, nameOf, key, true).NotFound? ==> FindMember(members, nameOf, key, false).NotFound?
    ensures forall i :: MatchAt(members, nameOf, key, false, i) ==> MatchAt(members, nameOf, key, true, i)
  {
    forall i | MatchAt(members, nameOf, key, false, i)
      ensures MatchAt(members, nameOf, key, true, i)
    {
      ExactMatchIsLooseMatch(nameOf(members[i]), key);
    }
  }

  /**
   * How resolution can end: it throws only when some lookup is ambiguous,
   * and then the case-insensitive lookup of properties or of fields is; it
   * finds nothing only when no writable property and no field carries the
   * key up to case; and without ambiguity it finds nothing exactly then.
   */
  lemma ResolutionOutcome(t: TypeDesc, key: string)
    ensures ResolveMember(t, key).Err? ==> ResolveMember(t, key).error == AmbiguousMatchException && !UnambiguousFor(t, key)
    ensures UnambiguousFor(t, key) ==> ResolveMember(t, key).Ok?
    ensures ResolveMember(t, key) == Ok(None) ==> !HasWritablePropertyLike(t, key) && !HasFieldLike(t, key)
    ensures UnambiguousFor(t, key) && !HasWritablePropertyLike(t, key) && !HasFieldLike(t, key) ==>
      ResolveMember(t, key) == Ok(None)
  {
    LooseLookupCoversExact(t.properties, PropertyName, key);
    LooseLookupCoversExact(t.fields, FieldName, key);
    var loose := FindMember(t.properties, PropertyName, key, true);
    var looseField := FindMember(t.fields, FieldName, key, true);
    forall i | 0 <= i < |t.properties| && t.properties[i].canWrite && EqualsIgnoreCase(t.properties[i].name, key)
      ensures ResolveMember(t, key) != Ok(None)
    {
      assert MatchAt(t.properties, PropertyName, key, true, i);
      if loose.Found? {
        var j :| MatchAt(t.properties, PropertyName, key, true, j) && t.properties[j] == loose.member
          && forall l :: l != j ==> !MatchAt(t.properties, PropertyName, key, true, l);
        assert i == j;
      }
    }
    forall i | 0 <= i < |t.fields| && EqualsIgnoreCase(t.fields[i].name, key)
      ensures ResolveMember(t, key) != Ok(None)
    {
      assert MatchAt(t.fields, FieldName, key, true, i);
    }
    if UnambiguousFor(t, key) && !HasWritablePropertyLike(t, key) && !HasFieldLike(t, key) {
      var exact := FindMember(t.properties, PropertyName, key, false);
      var field := FindMember(t.fields, FieldName, key, false);
      assert forall i :: !MatchAt(t.fields, FieldName, key, true, i);
      assert exact.Found? ==> !exact.member.canWrite by {
        if exact.Found? {
          var i :| MatchAt(t.properties, PropertyName, key, false, i) && t.properties[i] == exact.member;
          assert MatchAt(t.properties, PropertyName, key, true, i);
        }
      }
      assert field.NotFound?;
      assert loose.Found? ==> !loose.member.canWrite by {
        if loose.Found? {
          var i :| MatchAt(t.properties, PropertyName, key, true, i) && t.properties[i] == loose.member;
        }
      }
      assert looseField.NotFound?;
    }
  }

  /** `Nullable.GetUnderlyingType(t) ?? t`. */
  function UnderlyingType(t: TypeDesc): TypeDesc {
    if t.genericDefinition == Some(NullableDefinition) && |t.typeArguments| == 1 then t.typeArguments[0] else t
  }

  /**
   * Converting a non-null value to the member's (underlying) type: kept
   * when already assignable, `Enum.Parse` for a string going to an enum,
   * `Convert.ChangeType` otherwise.  The two stand-ins return `None` where
   * the library call throws.
   */
  function ConvertValue(key: string, v: Obj, memberType: TypeDesc,
                        enumParse: (Obj, TypeDesc) -> Option<Obj>,
                        changeType: (Obj, TypeDesc) -> Option<Obj>): (r: Result<Obj, ReflectionError>)
    ensures IsAssignableFrom(UnderlyingType(memberType), v.runtimeType) ==> r == Ok(v)
    ensures r.Err? ==> r.error == ConversionFailed(key)
  {
    var target := UnderlyingType(memberType);
    var converted :=
      if IsAssignableFrom(target, v.runtimeType) then Some(v)
      else if target.kind == Enum && v.runtimeType == StringType then enumParse(v, target)
      else changeType(v, target);
    if converted.Some? then Ok(converted.value) else Err(ConversionFailed(key))
  }

  const DuplicateKeyMessage := "An item with the same key has already been added."

  /**
   * What `MapProperties` computes over the remaining entries, given the
   * dictionary built so far: an ambiguous lookup ends the walk with its
   * exception; entries whose key resolves to no member, or whose value is
   * null, are skipped; a conversion failure or a second entry under the same
   * member name ends the walk with an error.
   */
  function MapFrom(t: TypeDesc, entries: seq<(string, Option<Obj>)>, acc: map<string, Obj>,
                   enumParse: (Obj, TypeDesc) -> Option<Obj>,
                   changeType: (Obj, TypeDesc) -> Option<Obj>): Result<map<string, Obj>, ReflectionError>
    decreases |entries|
  {
    if |entries| == 0 then Ok(acc)
    else
      var (key, value) := entries[0];
      var resolved := ResolveMember(t, key);
      if resolved.Err? then Err(resolved.error)
      else if resolved.value.None? || value.None? then MapFrom(t, entries[1..], acc, enumParse, changeType)
      else
        var member := resolved.value.value;
        var converted := ConvertValue(key, value.value, member.memberType, enumParse, changeType);
        if converted.Err? then Err(converted.error)
        else if member.name in acc then Err(ArgumentException(DuplicateKeyMessage, None))
        else MapFrom(t, entries[1..], acc[member.name := converted.value], enumParse, changeType)
  }

  /**
   * `MapProperties`: the subset of `props` that the type can take, keyed by
   * member name, each value converted to the member's type.  A null
   * dictionary gives an empty one.  `props` is the dictionary's entries in
   * its enumeration order.
   */
  method MapProperties(t: TypeDesc, props: Option<seq<(string, Option<Obj>)>>,
                       enumParse: (Obj, TypeDesc) -> Option<Obj>,
                       changeType: (Obj, TypeDesc) -> Option<Obj>)
    returns (r: Result<map<string, Obj>, ReflectionError>)
    ensures props.None? ==> r == Ok(map[])
    ensures props.Some? ==> r == MapFrom(t, props.value, map[], enumParse, changeType)
  {
    var ret: map<string, Obj> := map[];
    if props.None? {
      return Ok(ret);
    }
    var entries := props.value;
    var i := 0;
    while i < |entries|
      invariant 0 <= i <= |entries|
      invariant MapFrom(t, entries, map[], enumParse, changeType) == MapFrom(t, entries[i..], ret, enumParse, changeType)
    {
      var (key, value) := entries[i];
      assert entries[i..][1..] == entries[i + 1..];
      var resolved := ResolveMember(t, key);
      if resolved.Err? {
        return Err(resolved.error);
      }
      if resolved.value.Some? && value.Some? {
        var member := resolved.value.value;
        var converted := ConvertValue(key, value.value, member.memberType, enumParse, changeType);
        if converted.Err? {
          return Err(converted.error);
        }
        if member.name in ret {
          return Err(ArgumentException(DuplicateKeyMessage, None));
        }
        ret := ret[member.name := converted.value];
      }
      i := i + 1;
    }
    return Ok(ret);
  }

  /** A first entry that is skipped leaves the fold to the rest, with the same dictionary. */
  lemma MapFromSkips(t: TypeDesc, entries: seq<(string, Option<Obj>)>, acc: map<string, Obj>,
                     enumParse: (Obj, TypeDesc) -> Option<Obj>,
                     changeType: (Obj, TypeDesc) -> Option<Obj>)
    requires |entries| > 0 && ResolveMember(t, entries[0].0).Ok?
    requires ResolveMember(t, entries[0].0).value.None? || entries[0].1.None?
    ensures MapFrom(t, entries, acc, enumParse, changeType) == MapFrom(t, entries[1..], acc, enumParse, changeType)
  {
  }

  /** A first entry that is kept adds its converted value under the member's name, unless that fails or repeats a name. */
  lemma MapFromAdds(t: TypeDesc, entries: seq<(string, Option<Obj>)>, acc: map<string, Obj>,
                    enumParse: (Obj, TypeDesc) -> Option<Obj>,
                    changeType: (Obj, TypeDesc) -> Option<Obj>,
                    m: Member)
    requires |entries| > 0 && ResolveMember(t, entries[0].0) == Ok(Some(m)) && entries[0].1.Some?
    ensures var converted := ConvertValue(entries[0].0, entries[0].1.value, m.memberType, enumParse, changeType);
      MapFrom(t, entries, acc, enumParse, changeType) ==
        if converted.Err? then Err(converted.error)
        else if m.name in acc then Err(ArgumentException(DuplicateKeyMessage, None))
        else MapFrom(t, entries[1..], acc[m.name := converted.value], enumParse, changeType)
  {
  }

  /** Every key names a writable property or a field of `t`. */
  predicate KeysAreMembers(t: TypeDesc, m: map<string, Obj>) {
    forall k :: k in m ==>
      (exists p :: p in t.properties && p.canWrite && p.name == k) || (exists f :: f in t.fields && f.name == k)
  }

  /** Every key of a mapped dictionary names a writable property or a field of the type. */
  lemma {:induction false} MappedKeysAreMembers(t: TypeDesc, entries: seq<(string, Option<Obj>)>, acc: map<string, Obj>,
                                                enumParse: (Obj, TypeDesc) -> Option<Obj>,
                                                changeType: (Obj, TypeDesc) -> Option<Obj>)
    requires KeysAreMembers(t, acc)
    ensures MapFrom(t, entries, acc, enumParse, changeType).Ok? ==>
      KeysAreMembers(t, MapFrom(t, entries, acc, enumParse, changeType).value)
    decreases |entries|
  {
    if |entries| > 0 {
      var (key, value) := entries[0];
      var resolved := ResolveMember(t, key);
      if resolved.Ok? && (resolved.value.None? || value.None?) {
        MappedKeysAreMembers(t, entries[1..], acc, enumParse, changeType);
      } else if resolved.Ok? {
        var member := resolved.value.value;
        var converted := ConvertValue(key, value.value, member.memberType, enumParse, changeType);
        if converted.Ok? && member.name !in acc {
          var acc' := acc[member.name := converted.value];
          MappedKeysAreMembers(t, entries[1..], acc', enumParse, changeType);
        }
      }
    }
  }

  /** A successful mapping keeps what was already there, and only grows. */
  lemma {:induction false} MappingExtends(t: TypeDesc, entries: seq<(string, Option<Obj>)>, acc: map<string, Obj>,
                                          enumParse: (Obj, TypeDesc) -> Option<Obj>,
                                          changeType: (Obj, TypeDesc) -> Option<Obj>)
    ensures MapFrom(t, entries, acc, enumParse, changeType).Ok? ==>
      forall k :: k in acc ==>
        k in MapFrom(t, entries, acc, enumParse, changeType).value && MapFrom(t, entries, acc, enumParse, changeType).value[k] == acc[k]
    decreases |entries|
  {
    if |entries| > 0 {
      var (key, value) := entries[0];
      var resolved := ResolveMember(t, key);
      if resolved.Ok? && (resolved.value.None? || value.None?) {
        MappingExtends(t, entries[1..], acc, enumParse, changeType);
      } else if resolved.Ok? {
        var member := resolved.value.value;
        var converted := ConvertValue(key, value.value, member.memberType, enumParse, changeType);
        if converted.Ok? && member.name !in acc {
          MappingExtends(t, entries[1..], acc[member.name := converted.value], enumParse, changeType);
        }
      }
    }
  }

  /**
   * An entry whose key names exactly one writable property exactly, whose
   * value is non-null and already of the property's type, is in a
   * successful result unchanged, under its own key.
   */
  lemma ExactAssignableEntryIsMapped(t: TypeDesc, entries: seq<(string, Option<Obj>)>, acc: map<string, Obj>,
                                      enumParse: (Obj, TypeDesc) -> Option<Obj>,
                                      changeType: (Obj, TypeDesc) -> Option<Obj>,
                                      i: nat, p: PropertyDesc)
    requires i < |entries| && entries[i].1.Some?
    requires FindMember(t.properties, PropertyName, entries[i].0, false) == Found(p) && p.canWrite
    requires IsAssignableFrom(UnderlyingType(p.propertyType), entries[i].1.value.runtimeType)
    ensures MapFrom(t, entries, acc, enumParse, changeType).Ok? ==>
      entries[i].0 in MapFrom(t, entries, acc, enumParse, changeType).value
      && MapFrom(t, entries, acc, enumParse, changeType).value[entries[i].0] == entries[i].1.value
  {
    ResolutionTiers(t, entries[i].0);
    ResolvedEntryIsMapped(t, entries, acc, enumParse, changeType, i, Member(entries[i].0, p.propertyType), entries[i].1.value);
  }

  /** A key whose lookup is ambiguous, at any position, makes the whole mapping throw; as the first entry, with `AmbiguousMatchException`. */
  lemma {:induction false} AmbiguousKeyFails(t: TypeDesc, entries: seq<(string, Option<Obj>)>, acc: map<string, Obj>,
                                             enumParse: (Obj, TypeDesc) -> Option<Obj>,
                                             changeType: (Obj, TypeDesc) -> Option<Obj>,
                                             i: nat)
    requires i < |entries| && ResolveMember(t, entries[i].0).Err?
    ensures MapFrom(t, entries, acc, enumParse, changeType).Err?
    ensures i == 0 ==> MapFrom(t, entries, acc, enumParse, changeType) == Err(AmbiguousMatchException)
    decreases i
  {
    if i == 0 {
      ResolutionErrorIsAmbiguity(t, entries[0].0);
    } else {
      assert entries[1..][i - 1] == entries[i];
      forall acc': map<string, Obj>
        ensures MapFrom(t, entries[1..], acc', enumParse, changeType).Err?
      {
        AmbiguousKeyFails(t, entries[1..], acc', enumParse, changeType, i - 1);
      }
      TailFailurePropagates(t, entries, acc, enumParse, changeType);
    }
  }

  /** When the fold over the rest fails from every dictionary, the fold over all entries fails too. */
  lemma TailFailurePropagates(t: TypeDesc, entries: seq<(string, Option<Obj>)>, acc: map<string, Obj>,
                              enumParse: (Obj, TypeDesc) -> Option<Obj>,
                              changeType: (Obj, TypeDesc) -> Option<Obj>)
    requires |entries| > 0
    requires forall acc': map<string, Obj> :: MapFrom(t, entries[1..], acc', enumParse, changeType).Err?
    ensures MapFrom(t, entries, acc, enumParse, changeType).Err?
  {
    var resolved := ResolveMember(t, entries[0].0);
    if resolved.Ok? {
      if resolved.value.None? || entries[0].1.None? {
        MapFromSkips(t, entries, acc, enumParse, changeType);
      } else {
        MapFromAdds(t, entries, acc, enumParse, changeType, resolved.value.value);
      }
    }
  }

  /** The only exception member resolution throws is `AmbiguousMatchException`. */
  lemma ResolutionErrorIsAmbiguity(t: TypeDesc, key: string)
    ensures ResolveMember(t, key).Err? ==> ResolveMember(t, key) == Err(AmbiguousMatchException)
  {
    ResolutionOutcome(t, key);
  }

  /**
   * The entry puts `v` under `k`: its value is non-null, its key resolves
   * to a member named `k`, and the value converts to `v`.
   */
  predicate Supplies(t: TypeDesc, entry: (string, Option<Obj>), k: string, v: Obj,
                     enumParse: (Obj, TypeDesc) -> Option<Obj>,
                     changeType: (Obj, TypeDesc) -> Option<Obj>) {
    entry.1.Some?
    && ResolveMember(t, entry.0).Ok? && ResolveMember(t, entry.0).value.Some?
    && ResolveMember(t, entry.0).value.value.name == k
    && ConvertValue(entry.0, entry.1.value, ResolveMember(t, entry.0).value.value.memberType, enumParse, changeType) == Ok(v)
  }

  /** Every key of `r` that is not in `acc` is supplied, with its value in `r`, by one of the entries. */
  predicate Sourced(t: TypeDesc, entries: seq<(string, Option<Obj>)>, acc: map<string, Obj>, r: map<string, Obj>,
                    enumParse: (Obj, TypeDesc) -> Option<Obj>,
                    changeType: (Obj, TypeDesc) -> Option<Obj>) {
    forall k :: k in r && k !in acc ==>
      exists i :: 0 <= i < |entries| && Supplies(t, entries[i], k, r[k], enumParse, changeType)
  }

  /** Every key a successful mapping adds comes from an entry that supplies it, with the value stored. */
  lemma {:induction false} MappedEntriesHaveSource(t: TypeDesc, entries: seq<(string, Option<Obj>)>, acc: map<string, Obj>,
                                                   enumParse: (Obj, TypeDesc) -> Option<Obj>,
                                                   changeType: (Obj, TypeDesc) -> Option<Obj>)
    ensures MapFrom(t, entries, acc, enumParse, changeType).Ok? ==>
      Sourced(t, entries, acc, MapFrom(t, entries, acc, enumParse, changeType).value, enumParse, changeType)
    decreases |entries|
  {
    if |entries| > 0 && MapFrom(t, entries, acc, enumParse, changeType).Ok? {
      var r := MapFrom(t, entries, acc, enumParse, changeType).value;
      var resolved := ResolveMember(t, entries[0].0);
      if resolved.value.None? || entries[0].1.None? {
        MapFromSkips(t, entries, acc, enumParse, changeType);
        MappedEntriesHaveSource(t, entries[1..], acc, enumParse, changeType);
        SourcedShift(t, entries, acc, acc, r, enumParse, changeType);
      } else {
        var member := resolved.value.value;
        MapFromAdds(t, entries, acc, enumParse, changeType, member);
        var converted := ConvertValue(entries[0].0, entries[0].1.value, member.memberType, enumParse, changeType);
        var acc' := acc[member.name := converted.value];
        MappedEntriesHaveSource(t, entries[1..], acc', enumParse, changeType);
        MappingExtends(t, entries[1..], acc', enumParse, changeType);
        assert Supplies(t, entries[0], member.name, r[member.name], enumParse, changeType);
        SourcedShift(t, entries, acc, acc', r, enumParse, changeType);
      }
    }
  }

  /**
   * Keys the rest's entries supply are supplied by all the entries, and a
   * key the rest started with is supplied by the first entry.
   */
  lemma SourcedShift(t: TypeDesc, entries: seq<(string, Option<Obj>)>, acc: map<string, Obj>, acc': map<string, Obj>,
                     r: map<string, Obj>,
                     enumParse: (Obj, TypeDesc) -> Option<Obj>,
                     changeType: (Obj, TypeDesc) -> Option<Obj>)
    requires |entries| > 0 && Sourced(t, entries[1..], acc', r, enumParse, changeType)
    requires forall k :: k in acc' && k !in acc ==> k in r && Supplies(t, entries[0], k, r[k], enumParse, changeType)
    ensures Sourced(t, entries, acc, r, enumParse, changeType)
  {
    forall k | k in r && k !in acc
      ensures exists i :: 0 <= i < |entries| && Supplies(t, entries[i], k, r[k], enumParse, changeType)
    {
      if k in acc' {
        assert Supplies(t, entries[0], k, r[k], enumParse, changeType);
      } else {
        var j :| 0 <= j < |entries[1..]| && Supplies(t, entries[1..][j], k, r[k], enumParse, changeType);
        assert entries[1..][j] == entries[j + 1];
      }
    }
  }

  /**
   * A non-null entry whose key resolves to a member and whose value
   * converts is in a successful result, under the member's name, with the
   * converted value.
   */
  lemma {:induction false} ResolvedEntryIsMapped(t: TypeDesc, entries: seq<(string, Option<Obj>)>, acc: map<string, Obj>,
                                                 enumParse: (Obj, TypeDesc) -> Option<Obj>,
                                                 changeType: (Obj, TypeDesc) -> Option<Obj>,
                                                 i: nat, m: Member, v: Obj)
    requires i < |entries| && entries[i].1.Some?
    requires ResolveMember(t, entries[i].0) == Ok(Some(m))
    requires ConvertValue(entries[i].0, entries[i].1.value, m.memberType, enumParse, changeType) == Ok(v)
    ensures MapFrom(t, entries, acc, enumParse, changeType).Ok? ==>
      m.name in MapFrom(t, entries, acc, enumParse, changeType).value
      && MapFrom(t, entries, acc, enumParse, changeType).value[m.name] == v
    decreases i
  {
    var (key, value) := entries[0];
    var resolved := ResolveMember(t, key);
    if i == 0 {
      MapFromAdds(t, entries, acc, enumParse, changeType, m);
      if m.name !in acc {
        MappingExtends(t, entries[1..], acc[m.name := v], enumParse, changeType);
      }
    } else if resolved.Ok? {
      assert entries[1..][i - 1] == entries[i];
      if resolved.value.None? || value.None? {
        MapFromSkips(t, entries, acc, enumParse, changeType);
        ResolvedEntryIsMapped(t, entries[1..], acc, enumParse, changeType, i - 1, m, v);
      } else {
        var member := resolved.value.value;
        MapFromAdds(t, entries, acc, enumParse, changeType, member);
        var converted := ConvertValue(key, value.value, member.memberType, enumParse, changeType);
        if converted.Ok? && member.name !in acc {
          ResolvedEntryIsMapped(t, entries[1..], acc[member.name := converted.value], enumParse, changeType, i - 1, m, v);
        }
      }
    }
  }

  /**
   * A key that matches no writable property and no field exactly, but one
   * writable property ignoring case, is stored under that property's own
   * name.
   */
  lemma LooseEntryIsMappedUnderMemberName(t: TypeDesc, entries: seq<(string, Option<Obj>)>, acc: map<string, Obj>,
                                          enumParse: (Obj, TypeDesc) -> Option<Obj>,
                                          changeType: (Obj, TypeDesc) -> Option<Obj>,
                                          i: nat, p: PropertyDesc)
    requires i < |entries| && entries[i].1.Some?
    requires NoWritable(FindMember(t.properties, PropertyName, entries[i].0, false))
    requires FindMember(t.fields, FieldName, entries[i].0, false).NotFound?
    requires FindMember(t.properties, PropertyName, entries[i].0, true) == Found(p) && p.canWrite
    requires IsAssignableFrom(UnderlyingType(p.propertyType), entries[i].1.value.runtimeType)
    ensures MapFrom(t, entries, acc, enumParse, changeType).Ok? ==>
      p.name in MapFrom(t, entries, acc, enumParse, changeType).value
      && MapFrom(t, entries, acc, enumParse, changeType).value[p.name] == entries[i].1.value
  {
    ResolutionTiers(t, entries[i].0);
    ResolvedEntryIsMapped(t, entries, acc, enumParse, changeType, i, Member(p.name, p.propertyType), entries[i].1.value);
  }

  /** An entry with a null value, or whose key names no member, can be dropped without changing the result. */
  lemma {:induction false} SkippedEntryChangesNothing(t: TypeDesc, entries: seq<(string, Option<Obj>)>, acc: map<string, Obj>,
                                                      enumParse: (Obj, TypeDesc) -> Option<Obj>,
                                                      changeType: (Obj, TypeDesc) -> Option<Obj>,
                                                      i: nat)
    requires i < |entries|
    requires ResolveMember(t, entries[i].0) == Ok(None) || (ResolveMember(t, entries[i].0).Ok? && entries[i].1.None?)
    ensures MapFrom(t, entries, acc, enumParse, changeType) == MapFrom(t, entries[..i] + entries[i + 1..], acc, enumParse, changeType)
    decreases i
  {
    var dropped := entries[..i] + entries[i + 1..];
    if i == 0 {
      assert dropped == entries[1..];
    } else {
      var (key, value) := entries[0];
      var resolved := ResolveMember(t, key);
      assert dropped[0] == entries[0];
      assert dropped[1..] == entries[1..][..i - 1] + entries[1..][i..];
      assert entries[1..][i - 1] == entries[i];
      if resolved.Ok? {
        if resolved.value.None? || value.None? {
          SkippedEntryChangesNothing(t, entries[1..], acc, enumParse, changeType, i - 1);
        } else {
          var member := resolved.value.value;
          var converted := ConvertValue(key, value.value, member.memberType, enumParse, changeType);
          if converted.Ok? && member.name !in acc {
            SkippedEntryChangesNothing(t, entries[1..], acc[member.name := converted.value], enumParse, changeType, i - 1);
          }
        }
      }
    }
  }

  /**
   * With writable properties `ID` and `Id`, the key `"Id"` resolves exactly
   * to `Id`, while `"id"` matches both ignoring case, which throws.
   */
  lemma {:induction false} CaseVariantsOfOneName(t: TypeDesc, upper: PropertyDesc, mixed: PropertyDesc)
    requires t.properties == [upper, mixed] && t.fields == []
    requires upper.name == "ID" && mixed.name == "Id" && upper.canWrite && mixed.canWrite
    ensures ResolveMember(t, "Id") == Ok(Some(Member("Id", mixed.propertyType)))
    ensures ResolveMember(t, "id") == Err(AmbiguousMatchException)
  {
    assert !NameMatches(upper.name, "Id", false);
    assert FindMember(t.properties, PropertyName, "Id", false) == Found(mixed) by {
      assert t.properties[1..] == [mixed];
      assert t.properties[1..][1..] == [];
    }
    assert !NameMatches(upper.name, "id", false) && !NameMatches(mixed.name, "id", false);
    assert EqualsIgnoreCase(upper.name, "id") by {
      assert Lower(upper.name[0]) == 'i' && Lower(upper.name[1]) == 'd';
    }
    assert EqualsIgnoreCase(mixed.name, "id") by {
      assert Lower(mixed.name[0]) == 'i' && Lower(mixed.name[1]) == 'd';
    }
    assert forall i :: !MatchAt(t.properties, PropertyName, "id", false, i);
    assert FindMember(t.fields, FieldName, "id", false).NotFound?;
    assert MatchAt(t.properties, PropertyName, "id", true, 0) && MatchAt(t.properties, PropertyName, "id", true, 1);
  }

  /** An empty dictionary maps to an empty one. */
  lemma EmptyPropsMapToEmpty(t: TypeDesc, enumParse: (Obj, TypeDesc) -> Option<Obj>, changeType: (Obj, TypeDesc) -> Option<Obj>)
    ensures MapFrom(t, [], map[], enumParse, changeType) == Ok(map[])
  {
  }

  /** Two keys that resolve to the same member (say `Name` and `name`) make the mapping fail. */
  lemma DuplicateMemberFails(t: TypeDesc, k1: string, k2: string, v1: Obj, v2: Obj,
                             enumParse: (Obj, TypeDesc) -> Option<Obj>,
                             changeType: (Obj, TypeDesc) -> Option<Obj>)
    requires ResolveMember(t, k1).Ok? && ResolveMember(t, k1).value.Some? && ResolveMember(t, k2) == ResolveMember(t, k1)
    requires ConvertValue(k1, v1, ResolveMember(t, k1).value.value.memberType, enumParse, changeType).Ok?
    ensures MapFrom(t, [(k1, Some(v1)), (k2, Some(v2))], map[], enumParse, changeType).Err?
  {
    var m := ResolveMember(t, k1).value.value;
    var c1 := ConvertValue(k1, v1, m.memberType, enumParse, changeType);
    var rest := [(k1, Some(v1)), (k2, Some(v2))][1..];
    assert rest == [(k2, Some(v2))];
    assert MapFrom(t, [(k1, Some(v1)), (k2, Some(v2))], map[], enumParse, changeType)
        == MapFrom(t, rest, map[m.name := c1.value], enumParse, changeType);
  }

  // ----- GetAssemblyQualifiedName -----

  /** `"{FullName}, {assembly simple name}"`, or null for a null type. */
  function GetAssemblyQualifiedName(t: Option<TypeDesc>): (r: Option<string>)
    ensures t.None? <==> r.None?
    ensures t.Some? ==> |r.value| == |t.value.fullName| + 2 + |t.value.assemblyName|
  {
    if t.None? then None else Some(t.value.fullName + ", " + t.value.assemblyName)
  }

  /** The position of the last `c` in `s`, if any. */
  function LastIndexOf(s: string, c: char): (r: Option<nat>)
    ensures r.Some? ==> r.value < |s| && s[r.value] == c && forall j :: r.value < j < |s| ==> s[j] != c
    ensures r.None? ==> c !in s
    decreases |s|
  {
    if |s| == 0 then None
    else if s[|s| - 1] == c then Some(|s| - 1)
    else LastIndexOf(s[..|s| - 1], c)
  }

  /** Splits an assembly-qualified name at its last comma into type name and assembly name. */
  function SplitQualifiedName(s: string): Option<(string, string)> {
    var comma := LastIndexOf(s, ',');
    if comma.None? || comma.value + 1 >= |s| || s[comma.value + 1] != ' ' then None
    else Some((s[..comma.value], s[comma.value + 2..]))
  }

  /** When the assembly name has no comma, the qualified name splits back into its two parts. */
  lemma QualifiedNameRoundTrip(t: TypeDesc)
    requires ',' !in t.assemblyName
    ensures SplitQualifiedName(GetAssemblyQualifiedName(Some(t)).value) == Some((t.fullName, t.assemblyName))
  {
    var s := GetAssemblyQualifiedName(Some(t)).value;
    var n := |t.fullName|;
    assert s[n] == ',';
    var comma := LastIndexOf(s, ',');
    assert comma == Some(n);
    assert s[..n] == t.fullName;
    assert s[n + 2..] == t.assemblyName;
  }

  // ----- GetDisplayName -----

  /** The position of the first attribute of the given kind, if any. */
  function FirstOfKind(attributes: seq<Attribute>, isKind: Attribute -> bool): (r: Option<nat>)
    ensures r.None? <==> forall i :: 0 <= i < |attributes| ==> !isKind(attributes[i])
    ensures r.Some? ==>
      r.value < |attributes| && isKind(attributes[r.value]) && forall j :: 0 <= j < r.value ==> !isKind(attributes[j])
    decreases |attributes|
  {
    if |attributes| == 0 then None
    else if isKind(attributes[0]) then Some(0)
    else
      var rest := FirstOfKind(attributes[1..], isKind);
      assert forall i :: 1 <= i < |attributes| ==> attributes[i] == attributes[1..][i - 1];
      if rest.None? then None else Some(rest.value + 1)
  }

  predicate IsDisplayName(a: Attribute) {
    a.DisplayNameAttribute?
  }

  predicate IsDescription(a: Attribute) {
    a.DescriptionAttribute?
  }

  const NullDisplayName := "(null)"

  /**
   * `GetDisplayName`: `"(null)"` for a null type, else the text of the first
   * `DisplayName` attribute, else that of the first `Description`
   * attribute, else the type's name without its namespace.
   */
  function GetDisplayName(t: Option<TypeDesc>): (r: string)
    ensures t.None? ==> r == NullDisplayName
    ensures t.Some? && (exists i :: 0 <= i < |t.value.attributes| && t.value.attributes[i].DisplayNameAttribute?) ==>
      exists i :: 0 <= i < |t.value.attributes| && t.value.attributes[i].DisplayNameAttribute?
        && r == t.value.attributes[i].displayName
        && forall j :: 0 <= j < i ==> !t.value.attributes[j].DisplayNameAttribute?
    ensures (t.Some? && (forall i :: 0 <= i < |t.value.attributes| ==> !t.value.attributes[i].DisplayNameAttribute?)
             && (exists i :: 0 <= i < |t.value.attributes| && t.value.attributes[i].DescriptionAttribute?)) ==>
      exists i :: 0 <= i < |t.value.attributes| && t.value.attributes[i].DescriptionAttribute?
        && r == t.value.attributes[i].description
        && forall j :: 0 <= j < i ==> !t.value.attributes[j].DescriptionAttribute?
    ensures (t.Some? && forall i :: 0 <= i < |t.value.attributes| ==>
               !t.value.attributes[i].DisplayNameAttribute? && !t.value.attributes[i].DescriptionAttribute?) ==>
      r == t.value.name
  {
    if t.None? then NullDisplayName
    else
      var attributes := t.value.attributes;
      var display := FirstOfKind(attributes, IsDisplayName);
      if display.Some? then attributes[display.value].displayName
      else
        var description := FirstOfKind(attributes, IsDescription);
        if description.Some? then attributes[description.value].description else t.value.name
  }

  /** A null type is displayed as `(null)`. */
  lemma NullTypeDisplayName()
    ensures GetDisplayName(None) == "(null)"
  {
  }

  // ----- IsSubclassOfRawGeneric -----

  /**
   * What `IsSubclassOfRawGeneric` computes: walk from `toCheck` up the base
   * chain until `object`, succeeding as soon as a type's raw generic form is
   * `generic`.  Reaching a null base type before `object` (an interface, or
   * a null argument) dereferences null.
   */
  function RawGenericSearch(toCheck: Option<TypeDesc>, generic: TypeDesc): Result<bool, ReflectionError>
    decreases toCheck
  {
    if toCheck == Some(ObjectType) then Ok(false)
    else if toCheck.None? then Err(NullReferenceException)
    else if generic == RawType(toCheck.value) then Ok(true)
    else RawGenericSearch(toCheck.value.baseType, generic)
  }

  method IsSubclassOfRawGeneric(toCheck: Option<TypeDesc>, generic: TypeDesc) returns (r: Result<bool, ReflectionError>)
    ensures r == RawGenericSearch(toCheck, generic)
  {
    var current := toCheck;
    while current != Some(ObjectType)
      invariant RawGenericSearch(current, generic) == RawGenericSearch(toCheck, generic)
      decreases current
    {
      if current.None? {
        return Err(NullReferenceException);
      }
      var cur := if IsGenericType(current.value) then RawType(current.value) else current.value;
      if generic == cur {
        return Ok(true);
      }
      current := current.value.baseType;
    }
    return Ok(false);
  }

  /** The base chain of a type: the type, its base type, and so on until there is none. */
  function BaseChain(t: Option<TypeDesc>): (c: seq<TypeDesc>)
    ensures t.Some? ==> |c| > 0 && c[0] == t.value
    decreases t
  {
    if t.None? then [] else [t.value] + BaseChain(t.value.baseType)
  }

  /** The index of the first `object` on a chain, or its length when there is none. */
  function ObjectIndex(c: seq<TypeDesc>): (k: nat)
    ensures k <= |c|
    ensures k < |c| ==> c[k] == ObjectType
    ensures forall i :: 0 <= i < k ==> c[i] != ObjectType
    decreases |c|
  {
    if |c| == 0 then 0
    else if c[0] == ObjectType then 0
    else
      var k := ObjectIndex(c[1..]);
      assert forall i :: 1 <= i < |c| ==> c[i] == c[1..][i - 1];
      1 + k
  }

  /**
   * `IsSubclassOfRawGeneric` stated over the base chain: it answers true
   * iff some type before `object` has `generic` as its raw form, false iff
   * the chain reaches `object` with no such type, and fails iff the chain
   * ends without reaching `object` or a match.
   */
  lemma {:induction false} RawGenericSearchOnChain(toCheck: Option<TypeDesc>, generic: TypeDesc)
    ensures var c := BaseChain(toCheck); var k := ObjectIndex(c);
      (RawGenericSearch(toCheck, generic) == Ok(true) <==> exists i :: 0 <= i < k && RawType(c[i]) == generic)
      && (RawGenericSearch(toCheck, generic) == Ok(false) <==> k < |c| && forall i :: 0 <= i < k ==> RawType(c[i]) != generic)
      && (RawGenericSearch(toCheck, generic).Err? <==> k == |c| && forall i :: 0 <= i < k ==> RawType(c[i]) != generic)
    decreases toCheck
  {
    if toCheck.Some? && toCheck != Some(ObjectType) {
      var t := toCheck.value;
      var c := BaseChain(toCheck);
      assert c[1..] == BaseChain(t.baseType);
      RawGenericSearchOnChain(t.baseType, generic);
      ChainTail(c, generic);
    }
  }

  /** Past a first type that is not `object`, the chain's prefix before `object` is that type and the rest's prefix. */
  lemma ChainTail(c: seq<TypeDesc>, generic: TypeDesc)
    requires 0 < ObjectIndex(c)
    ensures ObjectIndex(c) == 1 + ObjectIndex(c[1..])
    ensures (exists i :: 0 <= i < ObjectIndex(c) && RawType(c[i]) == generic) <==>
      (RawType(c[0]) == generic || exists i :: 0 <= i < ObjectIndex(c[1..]) && RawType(c[1..][i]) == generic)
  {
    assert forall i :: 1 <= i < |c| ==> c[i] == c[1..][i - 1];
    forall i | 0 <= i < ObjectIndex(c[1..]) && RawType(c[1..][i]) == generic
      ensures 0 <= i + 1 < ObjectIndex(c) && RawType(c[i + 1]) == generic
    {
    }
  }

  /** A constructed generic class is a "subclass" of its own definition. */
  lemma ConstructedTypeMatchesItsDefinition(t: TypeDesc, generic: TypeDesc)
    requires t != ObjectType && !t.isGenericTypeDefinition && t.genericDefinition == Some(generic)
    ensures RawGenericSearch(Some(t), generic) == Ok(true)
  {
  }

  /** A type derived from a constructed generic class is a subclass of the definition. */
  lemma {:induction false} DerivedFromConstructed(t: TypeDesc, b: TypeDesc, generic: TypeDesc)
    requires t != ObjectType && t.baseType == Some(b) && RawType(t) != generic
    requires b != ObjectType && !b.isGenericTypeDefinition && b.genericDefinition == Some(generic)
    ensures RawGenericSearch(Some(t), generic) == Ok(true)
  {
    ConstructedTypeMatchesItsDefinition(b, generic);
  }
}
